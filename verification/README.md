# athena-base command interpretation, modelled in Dafny

athena-base turns a line of text typed at a terminal (`/help -name=help`, say)
into a command. A command definition has a category (typed as a one-character
prefix: `*`, `/`, `%` or `.`), a name, aliases and a list of parameter
definitions, each with a tag and a regular expression. Definitions are
registered with an interpreter. The interpreter reads the prefix and name at
the head of the line, finds the definition, and then peels parameters off the
rest of the line one at a time. The repository holds two generations of this
machinery, and both are modelled.

- **The newer interpreter** (`command/interpreter/CommandInterpreter.java`):
  - files definitions in a map keyed by command protocol, bound at the command
    level or, failing that, once per parameter;
  - looks definitions up by category, group, domain, protocol, name and alias;
  - interprets a line into a `Command` carrying a protocol and typed
    parameter values.
- **The earlier interpreter** (`command/internal/interpreter/CommandInterpreter.java`):
  - files definitions by category;
  - matches the whole line with one expression;
  - collects every group value of a parameter's match.

Around the two interpreters the model covers:
- the command, definition and parameter records of both generations;
- every enumeration with its `fromString` lookup:
  - categories and their prefixes, groups, domains, codes, protocols and
    parameter types;
  - message categories, groups, domains and types;
  - response and terminal states;
- the conversion of raw parameter text (`Integer.valueOf`, `Long.valueOf`,
  `Boolean.valueOf`);
- the lookups of the XML command file;
- the help processor's output;
- the command coordinator's dispatch map;
- the terminal's state machine and its command processing;
- the message factories;
- the structured file's header, content and footer;
- the resource bundle key scheme.

How Java behaviour is modelled:
- A Java reference that may be null is an `Option`.
- An operation that may throw returns a `Result` whose failure names the
  exception. Dereferencing a null list is a failure, as it is in Java.
- Java `String` methods are modelled in `JavaText`:
  - `trim` strips every character at or below U+0020;
  - `replace(t, "")` deletes non-overlapping occurrences from the left;
  - `equalsIgnoreCase` folds ASCII letters;
  - `String.format` padding is `PadRight`/`PadLeft`.
- Regular expressions are modelled in two ways:
  - The two command-head expressions are written out as functions over the
    line: `Interpreter.MatchHead` for `^\s*+((\*|/|#|%|.)\s*+([a-zA-Z0-9_]*))` and
    `Legacy.MatchLine` for `^\s*+((\*|/|#|%|.)\s*+([a-zA-Z0-9\s]*)).*+$`.
  - Parameter expressions come from the definitions' data. They are
    matched by an abstract `Engine`, which returns a match's text and its
    groups. The properties that need it assume only what `java.util.regex`
    guarantees for expressions without look-around (`WellBehaved`). Some also assume that each parameter's
    group 1 is its own tag (`Faithful`).
- A `HashMap`'s iteration order is taken to be insertion order: the newer
  registry is a sequence of entries.
- What a terminal pane receives is returned as a sequence of strings.

## Model

| member | source | states |
|---|---|---|
| JavaText.Trim | athena-base/src/main/java/com/heliosphere/athena/base/command/interpreter/CommandInterpreter.java:311 | the result is the input with the leading and trailing run of characters at or below U+0020 removed, and neither end of it is such a character |
| JavaText.TrimIdempotent | athena-base/src/main/java/com/heliosphere/athena/base/command/interpreter/CommandInterpreter.java:382 | a trimmed string starts and ends with a non-blank, and trimming it again changes nothing |
| JavaText.TrimEmptyIff | athena-base/src/main/java/com/heliosphere/athena/base/command/interpreter/CommandInterpreter.java:311 | a string trims to the empty string exactly when all its characters are at or below U+0020 |
| JavaText.TrimAround | athena-base/src/main/java/com/heliosphere/athena/base/command/internal/interpreter/CommandInterpreter.java:147 | blanks around a trimmed non-empty core are stripped back to the core |
| JavaText.RemoveAll | athena-base/src/main/java/com/heliosphere/athena/base/command/interpreter/CommandInterpreter.java:382 | `replace(t, "")` never lengthens the string and an empty `t` leaves it unchanged |
| JavaText.RemoveAllShrinks | athena-base/src/main/java/com/heliosphere/athena/base/command/interpreter/CommandInterpreter.java:466 | removing a non-empty string that occurs shortens the text by at least its length |
| JavaText.RemoveAllAbsent | athena-base/src/main/java/com/heliosphere/athena/base/command/internal/interpreter/CommandInterpreter.java:197 | removing a string that does not occur changes nothing |
| JavaText.RemoveAllSelf | athena-base/src/main/java/com/heliosphere/athena/base/command/interpreter/CommandInterpreter.java:476 | `copy.replace(copy, "")` leaves the empty string |
| JavaText.Without | athena-base/src/main/java/com/heliosphere/athena/base/command/interpreter/CommandInterpreter.java:366 | the result holds no occurrence of the character and is no longer than the input |
| JavaText.RemoveCharIsWithout | athena-base/src/main/java/com/heliosphere/athena/base/command/interpreter/CommandInterpreter.java:366 | `replace(" ", "")` drops every blank and keeps every other character in order |
| JavaText.EqualsIgnoreCaseAt | athena-base/src/main/java/com/heliosphere/athena/base/command/processor/HelpCommandProcessor.java:232 | two strings are equal ignoring case exactly when they have the same length and fold to the same character at every position |
| JavaText.EqualsIgnoreCaseEquivalence | athena-base/src/main/java/com/heliosphere/athena/base/command/protocol/DefaultCommandCategoryType.java:88-104 | equality ignoring case is reflexive, symmetric and transitive |
| JavaText.PadRight | athena-base/src/main/java/com/heliosphere/athena/base/command/processor/HelpCommandProcessor.java:104 | `%1$-15s`: the text first, then blanks up to the width, and never shorter than the text |
| JavaText.PadLeft | athena-base/src/main/java/com/heliosphere/athena/base/command/internal/coordinator/CommandCoordinator.java:389 | `%1s`: blanks first, then the text, up to the width |
| JavaText.LastIndexOf | athena-base/src/main/java/com/heliosphere/athena/base/command/CommandParameterMetadata.java:146 | the index found holds the character and none follows it; no index exactly when the character is absent |
| JavaNumbers.ParseDecimal | athena-base/src/main/java/com/heliosphere/athena/base/command/CommandParameter.java:69-79 | parsing succeeds exactly on a signed numeral of ASCII decimal digits whose value lies in the range, and returns that value |
| JavaNumbers.IntegerValueOf | athena-base/src/main/java/com/heliosphere/athena/base/command/CommandParameter.java:69-71 | `Integer.valueOf` accepts exactly the ASCII-digit numerals of 32-bit values, null raising, and returns their value |
| JavaNumbers.LongValueOf | athena-base/src/main/java/com/heliosphere/athena/base/command/CommandParameter.java:77-79 | `Long.valueOf` accepts exactly the ASCII-digit numerals of 64-bit values, null raising, and returns their value |
| JavaNumbers.Render | athena-base/src/main/java/com/heliosphere/athena/base/command/CommandParameter.java:69-79 | `toString` of a number is a numeral |
| JavaNumbers.DigitsRoundTrip | athena-base/src/main/java/com/heliosphere/athena/base/command/CommandParameter.java:69-79 | reading back the decimal digits of a natural number gives the number |
| JavaNumbers.RenderRoundTrip | athena-base/src/main/java/com/heliosphere/athena/base/command/CommandParameter.java:69-79 | the numeral rendered for any integer denotes that integer |
| JavaNumbers.ValueOfRoundTrip | athena-base/src/main/java/com/heliosphere/athena/base/command/CommandParameter.java:69-79 | every `int` and every `long` survives `valueOf(toString(v))` |
| JavaNumbers.ValueOfEdges | athena-base/src/main/java/com/heliosphere/athena/base/command/CommandParameter.java:69-79 | one past the largest `int` is refused by `Integer` and accepted by `Long`; a lone sign, a leading blank and null are refused |
| JavaNumbers.BooleanValueOf | athena-base/src/main/java/com/heliosphere/athena/base/command/CommandParameter.java:73-75 | `Boolean.valueOf` is true only for a present four-character text |
| JavaNumbers.BooleanValueOfIff | athena-base/src/main/java/com/heliosphere/athena/base/command/CommandParameter.java:73-75 | `Boolean.valueOf` is true exactly for the spellings of "true" in any letter case |
| JavaNumbers.BooleanValueOfExamples | athena-base/src/main/java/com/heliosphere/athena/base/command/CommandParameter.java:73-75 | "TRUE" and "True" are true; "yes", "1", null and " true" are false |
| Lists.FirstIndex | athena-base/src/main/java/com/heliosphere/athena/base/command/internal/CommandMetadata.java:125-136 | the index found is the first position whose element satisfies the test; none exactly when no element does |
| Lists.FirstWhere | athena-base/src/main/java/com/heliosphere/athena/base/command/internal/CommandMetadata.java:125-136 | the element found is the first satisfying the test; null exactly when none does |
| Lists.Append | athena-base/src/main/java/com/heliosphere/athena/base/command/internal/CommandMetadata.java:114-122 | a list that is null until first used gains the element at its end and keeps the earlier ones before it |
| Lists.AppendOrder | athena-base/src/main/java/com/heliosphere/athena/base/command/internal/CommandMetadata.java:114-122 | appending to a null list gives a one-element list, and two appends keep both elements in order |
| EnumLookup.FirstMatch | athena-base/src/main/java/com/heliosphere/athena/base/command/protocol/DefaultCommandCategoryType.java:88-104 | the index found is the first constant whose key equals the text ignoring case; none exactly when no key does |
| EnumLookup.Lookup | athena-base/src/main/java/com/heliosphere/athena/base/command/protocol/DefaultCommandCategoryType.java:88-104 | `fromString` raises on a null or blank argument and on text that names no constant, and otherwise returns the first constant whose key equals it ignoring case |
| EnumLookup.LookupKey | athena-base/src/main/java/com/heliosphere/athena/base/command/protocol/DefaultCommandCategoryType.java:88-104 | with keys distinct up to case, any non-blank letter-case spelling of a constant's key finds that constant |
| EnumLookup.FirstExact | athena-base/src/main/java/com/heliosphere/athena/base/command/protocol/ParameterType.java:108-124 | the index found is the first constant whose key equals the text exactly |
| EnumLookup.LookupExact | athena-base/src/main/java/com/heliosphere/athena/base/command/protocol/ParameterType.java:108-124 | `fromType` raises on blank or unknown text and otherwise returns the first constant whose key equals it exactly |
| EnumLookup.LookupExactKey | athena-base/src/main/java/com/heliosphere/athena/base/command/protocol/ParameterType.java:108-124 | with unique keys, a constant's own key finds it |
| EnumLookup.ConstantKeyFacts | athena-base/src/main/java/com/heliosphere/athena/base/command/protocol/DefaultCommandCategoryType.java:35-55 | keys written in capitals are never blank and are equal ignoring case only when equal |
| EnumLookup.LookupTableKey | athena-base/src/main/java/com/heliosphere/athena/base/command/protocol/DefaultCommandCategoryType.java:88-104 | on a complete table with unique capital keys, every letter-case spelling of a constant's key finds exactly that constant |
| EnumLookup.LookupTableFails | athena-base/src/main/java/com/heliosphere/athena/base/command/protocol/DefaultCommandCategoryType.java:88-104 | on such a table the lookup raises exactly on blank text or text that spells no key in any letter case |
| EnumLookup.LookupTableExactKey | athena-base/src/main/java/com/heliosphere/athena/base/command/protocol/ParameterType.java:108-124 | on such a table the exact lookup of a constant's key finds it |
| EnumLookup.LookupFirstAt | athena-base/src/main/java/com/heliosphere/athena/base/command/protocol/DefaultCommandCategoryType.java:88-104 | the lookup returns the constant at the first matching position |
| ProtocolTypes.CategoryTable | athena-base/src/main/java/com/heliosphere/athena/base/command/protocol/DefaultCommandCategoryType.java:35-55 | the five categories, in declaration order, with their names |
| ProtocolTypes.CategoryFromString | athena-base/src/main/java/com/heliosphere/athena/base/command/protocol/DefaultCommandCategoryType.java:88-104 | a found category's name equals the argument ignoring case; blank input raises the null-argument error |
| ProtocolTypes.CategoryFromStringName | athena-base/src/main/java/com/heliosphere/athena/base/command/protocol/DefaultCommandCategoryType.java:88-104 | any letter-case spelling of a category's name finds it |
| ProtocolTypes.CategoryFromStringFails | athena-base/src/main/java/com/heliosphere/athena/base/command/protocol/DefaultCommandCategoryType.java:88-104 | the lookup raises exactly on blank text or an unknown name |
| ProtocolTypes.CategoryFromPrefix | athena-base/src/main/java/com/heliosphere/athena/base/command/protocol/DefaultCommandCategoryType.java:115-131 | the category found is the first, in declaration order, whose prefix equals the argument ignoring case |
| ProtocolTypes.CategoryFromPrefixOfPrefix | athena-base/src/main/java/com/heliosphere/athena/base/command/protocol/DefaultCommandCategoryType.java:73-76 | `/` gives NORMAL, declared before ADMINISTRATION which shares it; every other category's prefix gives that category |
| ProtocolTypes.CategoryFromPrefixFails | athena-base/src/main/java/com/heliosphere/athena/base/command/protocol/DefaultCommandCategoryType.java:115-131 | the prefixes that name a category are exactly `*`, `/`, `%` and `.`; `#`, a letter and anything else raise |
| ProtocolTypes.GroupTable | athena-base/src/main/java/com/heliosphere/athena/base/command/protocol/DefaultCommandGroupType.java:33-38 | the groups in declaration order |
| ProtocolTypes.GroupFromString | athena-base/src/main/java/com/heliosphere/athena/base/command/protocol/DefaultCommandGroupType.java:50-66 | a found group's name equals the argument ignoring case; blank input raises |
| ProtocolTypes.GroupFromStringName | athena-base/src/main/java/com/heliosphere/athena/base/command/protocol/DefaultCommandGroupType.java:50-66 | any letter-case spelling of a group's name finds it |
| ProtocolTypes.GroupFromStringFails | athena-base/src/main/java/com/heliosphere/athena/base/command/protocol/DefaultCommandGroupType.java:50-66 | the lookup raises exactly on blank text or an unknown name |
| ProtocolTypes.DomainTable | athena-base/src/main/java/com/heliosphere/athena/base/command/protocol/DefaultCommandDomainType.java:33 | APPLICATION is the one domain |
| ProtocolTypes.DomainFromString | athena-base/src/main/java/com/heliosphere/athena/base/command/protocol/DefaultCommandDomainType.java:45-61 | a found domain's name equals the argument ignoring case; blank input raises |
| ProtocolTypes.DomainFromStringName | athena-base/src/main/java/com/heliosphere/athena/base/command/protocol/DefaultCommandDomainType.java:45-61 | any letter-case spelling of the domain's name finds it |
| ProtocolTypes.DomainFromStringFails | athena-base/src/main/java/com/heliosphere/athena/base/command/protocol/DefaultCommandDomainType.java:45-61 | the lookup raises exactly on blank text or an unknown name |
| ProtocolTypes.CodeTable | athena-base/src/main/java/com/heliosphere/athena/base/command/protocol/DefaultCommandCodeType.java:33-53 | the codes in declaration order |
| ProtocolTypes.CodeFromString | athena-base/src/main/java/com/heliosphere/athena/base/command/protocol/DefaultCommandCodeType.java:65-81 | a found code's name equals the argument ignoring case; blank input raises |
| ProtocolTypes.CodeFromStringName | athena-base/src/main/java/com/heliosphere/athena/base/command/protocol/DefaultCommandCodeType.java:65-81 | any letter-case spelling of a code's name finds it |
| ProtocolTypes.CodeFromStringFails | athena-base/src/main/java/com/heliosphere/athena/base/command/protocol/DefaultCommandCodeType.java:65-81 | the lookup raises exactly on blank text or an unknown name |
| ProtocolTypes.ProtocolTable | athena-base/src/main/java/com/heliosphere/athena/base/command/protocol/DefaultCommandProtocol.java:35-45 | the default command protocols in declaration order |
| ProtocolTypes.ProtocolFromString | athena-base/src/main/java/com/heliosphere/athena/base/command/protocol/DefaultCommandProtocol.java:78-94 | a found protocol's name equals the argument ignoring case; blank input raises |
| ProtocolTypes.ProtocolFromStringName | athena-base/src/main/java/com/heliosphere/athena/base/command/protocol/DefaultCommandProtocol.java:78-94 | any letter-case spelling of a protocol's name finds it |
| ProtocolTypes.ProtocolFromStringFails | athena-base/src/main/java/com/heliosphere/athena/base/command/protocol/DefaultCommandProtocol.java:78-94 | the lookup raises exactly on blank text or an unknown name |
| ProtocolTypes.ProtocolAttributes | athena-base/src/main/java/com/heliosphere/athena/base/command/protocol/DefaultCommandProtocol.java:35-45 | every default protocol is a NORMAL command of the APPLICATION domain, and AFK is the only one of the CHAT group |
| ProtocolTypes.ParameterTypeTable | athena-base/src/main/java/com/heliosphere/athena/base/command/protocol/ParameterType.java:34-49 | the parameter types in declaration order |
| ProtocolTypes.ParameterTypeFromString | athena-base/src/main/java/com/heliosphere/athena/base/command/protocol/ParameterType.java:81-97 | a found type's name equals the argument ignoring case; blank input raises |
| ProtocolTypes.ParameterTypeFromStringName | athena-base/src/main/java/com/heliosphere/athena/base/command/protocol/ParameterType.java:81-97 | any letter-case spelling of a type's name finds it |
| ProtocolTypes.ParameterTypeFromStringFails | athena-base/src/main/java/com/heliosphere/athena/base/command/protocol/ParameterType.java:81-97 | the lookup raises exactly on blank text or an unknown name |
| ProtocolTypes.ParameterTypeFromType | athena-base/src/main/java/com/heliosphere/athena/base/command/protocol/ParameterType.java:108-124 | `fromType` returns a type whose class name equals the argument exactly, and raises on blank text |
| ProtocolTypes.ParameterTypeFromTypeRoundTrip | athena-base/src/main/java/com/heliosphere/athena/base/command/protocol/ParameterType.java:67-70 | `fromType(t.getType())` is `t` for every type |
| ProtocolTypes.ParameterTypeFromTypeCaseSensitive | athena-base/src/main/java/com/heliosphere/athena/base/command/protocol/ParameterType.java:108-124 | an upper-cased class name is refused |
| LegacyTypes.CategoryTable | athena-base/src/main/java/com/heliosphere/athena/base/command/protocol/CommandCategoryType.java:31-51 | the five categories of the earlier generation in declaration order |
| LegacyTypes.CategoryFromString | athena-base/src/main/java/com/heliosphere/athena/base/command/protocol/CommandCategoryType.java:84-100 | a found category's name equals the argument ignoring case; blank input raises |
| LegacyTypes.CategoryFromStringName | athena-base/src/main/java/com/heliosphere/athena/base/command/protocol/CommandCategoryType.java:84-100 | any letter-case spelling of a category's name finds it |
| LegacyTypes.CategoryFromStringFails | athena-base/src/main/java/com/heliosphere/athena/base/command/protocol/CommandCategoryType.java:84-100 | the lookup raises exactly on blank text or an unknown name |
| LegacyTypes.CategoryFromPrefix | athena-base/src/main/java/com/heliosphere/athena/base/command/protocol/CommandCategoryType.java:111-127 | the category found is the first whose prefix equals the argument ignoring case |
| LegacyTypes.CategoryFrom | athena-base/src/main/java/com/heliosphere/athena/base/command/internal/type/CommandCategoryType.java:75-91 | the instance method `from` gives the same result whatever its receiver |
| LegacyTypes.CategoryFromPrefixOf | athena-base/src/main/java/com/heliosphere/athena/base/command/internal/type/CommandCategoryType.java:94-110 | the instance method `fromPrefix` gives the same result whatever its receiver |
| LegacyTypes.CategoryFromAnyReceiver | athena-base/src/main/java/com/heliosphere/athena/base/command/internal/type/CommandCategoryType.java:75-91 | whatever the receiver, `from` finds a category by any letter-case spelling of its name and raises exactly on blank or unknown names |
| LegacyTypes.CategoryFromPrefixOfPrefix | athena-base/src/main/java/com/heliosphere/athena/base/command/internal/type/CommandCategoryType.java:94-110 | whatever the receiver, `/` gives NORMAL and every other prefix gives its own category |
| LegacyTypes.GroupTable | athena-base/src/main/java/com/heliosphere/athena/base/command/internal/type/CommandGroupType.java:29-79 | the eleven groups in declaration order |
| LegacyTypes.GroupFromString | athena-base/src/main/java/com/heliosphere/athena/base/command/internal/type/CommandGroupType.java:90-106 | a found group's name equals the argument ignoring case; blank input raises |
| LegacyTypes.GroupFromStringName | athena-base/src/main/java/com/heliosphere/athena/base/command/internal/type/CommandGroupType.java:90-106 | any letter-case spelling of a group's name finds it |
| LegacyTypes.GroupFromStringFails | athena-base/src/main/java/com/heliosphere/athena/base/command/internal/type/CommandGroupType.java:90-106 | the lookup raises exactly on blank text or an unknown name |
| LegacyTypes.CodeTable | athena-base/src/main/java/com/heliosphere/athena/base/command/internal/type/CommandCodeType.java:29-34 | the codes in declaration order |
| LegacyTypes.CodeFromString | athena-base/src/main/java/com/heliosphere/athena/base/command/internal/type/CommandCodeType.java:45-61 | a found code's name equals the argument ignoring case; blank input raises |
| LegacyTypes.CodeFromStringName | athena-base/src/main/java/com/heliosphere/athena/base/command/internal/type/CommandCodeType.java:45-61 | any letter-case spelling of a code's name finds it |
| LegacyTypes.CodeFromStringFails | athena-base/src/main/java/com/heliosphere/athena/base/command/internal/type/CommandCodeType.java:45-61 | the lookup raises exactly on blank text or an unknown name |
| LegacyTypes.ParameterTypeTable | athena-base/src/main/java/com/heliosphere/athena/base/command/internal/type/ParameterType.java:36-61 | the six parameter types in declaration order |
| LegacyTypes.ParameterTypeFromString | athena-base/src/main/java/com/heliosphere/athena/base/command/internal/type/ParameterType.java:85-101 | a found type's name equals the argument ignoring case; blank input raises |
| LegacyTypes.ParameterTypeFromStringName | athena-base/src/main/java/com/heliosphere/athena/base/command/internal/type/ParameterType.java:85-101 | any letter-case spelling of a type's name finds it |
| LegacyTypes.ParameterTypeFromStringFails | athena-base/src/main/java/com/heliosphere/athena/base/command/internal/type/ParameterType.java:85-101 | the lookup raises exactly on blank text or an unknown name |
| LegacyTypes.ParameterTypeFrom | athena-base/src/main/java/com/heliosphere/athena/base/command/internal/type/ParameterType.java:85-101 | the instance method `from` gives the same result whatever its receiver |
| LegacyTypes.ParameterTypeFromAnyReceiver | athena-base/src/main/java/com/heliosphere/athena/base/command/internal/type/ParameterType.java:79-101 | whatever the receiver, `from(c.name())` is `c` in any letter case, and blank or unknown names raise |
| LegacyTypes.ProtocolTable | athena-base/src/main/java/com/heliosphere/athena/base/command/protocol/CommandProtocolType.java:33-53 | the five command protocols of the earlier generation in declaration order |
| LegacyTypes.ProtocolFromString | athena-base/src/main/java/com/heliosphere/athena/base/command/protocol/CommandProtocolType.java:85-101 | a found protocol's name equals the argument ignoring case; blank input raises |
| LegacyTypes.ProtocolFromStringName | athena-base/src/main/java/com/heliosphere/athena/base/command/protocol/CommandProtocolType.java:85-101 | any letter-case spelling of a protocol's name finds it |
| LegacyTypes.ProtocolFromStringFails | athena-base/src/main/java/com/heliosphere/athena/base/command/protocol/CommandProtocolType.java:85-101 | the lookup raises exactly on blank text or an unknown name |
| LegacyTypes.ProtocolAttributes | athena-base/src/main/java/com/heliosphere/athena/base/command/protocol/CommandProtocolType.java:104-119 | all five protocols are NORMAL commands and AFK is the only CHAT one |
| MessageTypes.MessageCategoryTable | athena-base/src/main/java/com/heliosphere/athena/base/message/internal/protocol/MessageProtocolCategory.java:29-59 | the seven message categories in declaration order |
| MessageTypes.MessageCategoryFromString | athena-base/src/main/java/com/heliosphere/athena/base/message/internal/protocol/MessageProtocolCategory.java:72-88 | a found category's name equals the argument ignoring case; blank input raises |
| MessageTypes.MessageCategoryFromStringName | athena-base/src/main/java/com/heliosphere/athena/base/message/internal/protocol/MessageProtocolCategory.java:72-88 | any letter-case spelling of a category's name finds it |
| MessageTypes.MessageCategoryFromStringFails | athena-base/src/main/java/com/heliosphere/athena/base/message/internal/protocol/MessageProtocolCategory.java:72-88 | the lookup raises exactly on blank text or an unknown name |
| MessageTypes.MessageGroupTable | athena-base/src/main/java/com/heliosphere/athena/base/message/protocol/TestMessageProtocolGroup.java:33-38 | the message groups in declaration order |
| MessageTypes.MessageGroupFromString | athena-base/src/main/java/com/heliosphere/athena/base/message/protocol/TestMessageProtocolGroup.java:51-67 | a found group's name equals the argument ignoring case; blank input raises |
| MessageTypes.MessageGroupFromStringName | athena-base/src/main/java/com/heliosphere/athena/base/message/protocol/TestMessageProtocolGroup.java:51-67 | any letter-case spelling of a group's name finds it |
| MessageTypes.MessageGroupFromStringFails | athena-base/src/main/java/com/heliosphere/athena/base/message/protocol/TestMessageProtocolGroup.java:51-67 | the lookup raises exactly on blank text or an unknown name |
| MessageTypes.MessageDomainTable | athena-base/src/main/java/com/heliosphere/athena/base/message/protocol/TestMessageProtocolDomain.java:33-53 | the message domains in declaration order |
| MessageTypes.MessageDomainFromString | athena-base/src/main/java/com/heliosphere/athena/base/message/protocol/TestMessageProtocolDomain.java:66-82 | a found domain's name equals the argument ignoring case; blank input raises |
| MessageTypes.MessageDomainFromStringName | athena-base/src/main/java/com/heliosphere/athena/base/message/protocol/TestMessageProtocolDomain.java:66-82 | any letter-case spelling of a domain's name finds it |
| MessageTypes.MessageDomainFromStringFails | athena-base/src/main/java/com/heliosphere/athena/base/message/protocol/TestMessageProtocolDomain.java:66-82 | the lookup raises exactly on blank text or an unknown name |
| MessageTypes.TestProtocolFromString | athena-base/src/main/java/com/heliosphere/athena/base/message/protocol/TestMessageProtocol.java:173-177 | the test protocol's `fromString` returns null whatever it is given |
| MessageTypes.ProtocolTable | athena-base/src/main/java/com/heliosphere/athena/base/message/protocol/TestMessageProtocol.java:25-110 | every request has a reply as its answer and every reply answers some request; the notifications are exactly the constants without a domain; all are APPLICATION commands of the CHAT group |
| MessageTypes.MessageTypeTable | athena-base/src/main/java/com/heliosphere/athena/base/message/protocol/DefaultMessageType.java:36-56 | the default message types in declaration order |
| MessageTypes.MessageTypeFromString | athena-base/src/main/java/com/heliosphere/athena/base/message/protocol/DefaultMessageType.java:103-119 | a found type's name equals the argument ignoring case; blank input raises |
| MessageTypes.MessageTypeFromStringName | athena-base/src/main/java/com/heliosphere/athena/base/message/protocol/DefaultMessageType.java:103-119 | any letter-case spelling of a type's name finds it |
| MessageTypes.MessageTypeFromStringFails | athena-base/src/main/java/com/heliosphere/athena/base/message/protocol/DefaultMessageType.java:103-119 | the lookup raises exactly on blank text or an unknown name |
| MessageTypes.MessageTypeAttributes | athena-base/src/main/java/com/heliosphere/athena/base/message/protocol/DefaultMessageType.java:36-56 | every default type is unrestricted, and exactly NONE and STATUS_AFK carry no content class |
| MessageTypes.FakeTypeTable | athena-base/src/test/java/com/heliosphere/athena/base/test/message/protocol/FakeMessageProtocol.java:32-42 | the fixture message types in declaration order |
| MessageTypes.FakeTypeFromString | athena-base/src/test/java/com/heliosphere/athena/base/test/message/protocol/FakeMessageProtocol.java:88-104 | a found type's name equals the argument ignoring case; blank input raises |
| MessageTypes.FakeTypeFromStringName | athena-base/src/test/java/com/heliosphere/athena/base/test/message/protocol/FakeMessageProtocol.java:88-104 | any letter-case spelling of a type's name finds it |
| MessageTypes.FakeTypeFromStringFails | athena-base/src/test/java/com/heliosphere/athena/base/test/message/protocol/FakeMessageProtocol.java:88-104 | the lookup raises exactly on blank text or an unknown name |
| MessageTypes.FakeTypeAttributes | athena-base/src/test/java/com/heliosphere/athena/base/test/message/protocol/FakeMessageProtocol.java:32-42 | every fixture type is unrestricted, and STATUS_AFK alone has no content class |
| MessageTypes.KeptStatus | athena-base/src/main/java/com/heliosphere/athena/base/message/Message.java:102-110 | a status is kept exactly for a REPLY protocol |
| MessageTypes.CreateMessage | athena-base/src/main/java/com/heliosphere/athena/base/message/Message.java:76-79 | a message of the protocol alone: no content, no original, no status, correlation 0 |
| MessageTypes.CreateWithContent | athena-base/src/main/java/com/heliosphere/athena/base/message/Message.java:88-91 | a message of the protocol and content, with no status and correlation 0 |
| MessageTypes.CreateReply | athena-base/src/main/java/com/heliosphere/athena/base/message/Message.java:102-110 | protocol, content and correlation kept; the status only on a reply |
| MessageTypes.CreateAnswer | athena-base/src/main/java/com/heliosphere/athena/base/message/Message.java:121-129 | a message answering an original: protocol, original and correlation kept; the status only on a reply |
| MessageTypes.FactoriesAgree | athena-base/src/main/java/com/heliosphere/athena/base/message/Message.java:76-129 | the shorter factories are the four-argument one with no status and correlation 0; a status is dropped on anything but a reply; answering a request keeps the status |
| Commands.NewParameterMetadata | athena-base/src/main/java/com/heliosphere/athena/base/command/CommandParameterMetadata.java:108-123 | name, description and tag are stored; no protocol name, protocol or example yet |
| Commands.AddExample | athena-base/src/main/java/com/heliosphere/athena/base/command/CommandParameterMetadata.java:166-174 | the example joins the end of the list, created on first use, and nothing else changes |
| Commands.SplitProtocolName | athena-base/src/main/java/com/heliosphere/athena/base/command/CommandParameterMetadata.java:146 | a full protocol name splits at its last dot into a class and a constant name that rejoin to it; no split without a dot |
| Commands.SetProtocol | athena-base/src/main/java/com/heliosphere/athena/base/command/CommandParameterMetadata.java:138-163 | a null, empty or dotless name changes nothing; otherwise the name is split at its last dot, the update fails exactly when the resolver finds no constant for the class and spelling, the failure names the parameter, and a success sets only the protocol to the constant found |
| Commands.Initialize | athena-base/src/main/java/com/heliosphere/athena/base/command/CommandParameterMetadata.java:126-129 | with no stored protocol name nothing changes; otherwise only the protocol may change |
| Commands.SetProtocolDefault | athena-base/src/main/java/com/heliosphere/athena/base/command/CommandParameterMetadata.java:138-163 | the default protocol class followed by any letter-case spelling of a constant resolves to that constant and changes nothing else |
| Commands.NewCommandMetadata | athena-base/src/main/java/com/heliosphere/athena/base/command/CommandMetadata.java:140-147 | the five strings are stored; protocol, aliases and parameters are unset |
| Commands.AddParameter | athena-base/src/main/java/com/heliosphere/athena/base/command/CommandMetadata.java:150-158 | the parameter joins the end of the list, created on first use, and nothing else changes |
| Commands.GetByName | athena-base/src/main/java/com/heliosphere/athena/base/command/CommandMetadata.java:161-172 | raises exactly on a null parameter list; otherwise the first parameter with that exact name, and none exactly when no parameter has it |
| Commands.GetByTag | athena-base/src/main/java/com/heliosphere/athena/base/command/CommandMetadata.java:175-186 | raises exactly on a null parameter list; otherwise the first parameter with that exact tag, and none exactly when no parameter has it |
| Commands.AddThenGet | athena-base/src/main/java/com/heliosphere/athena/base/command/CommandMetadata.java:150-172 | a parameter added under a fresh name is found by it, and a name found before is still found the same way |
| Commands.AddKeepsEarlier | athena-base/src/main/java/com/heliosphere/athena/base/command/CommandMetadata.java:150-172 | adding a parameter never changes what an earlier name lookup found |
| Commands.NewParameter | athena-base/src/main/java/com/heliosphere/athena/base/command/CommandParameter.java:49-53 | text and definition stored, no value |
| Commands.Coerce | athena-base/src/main/java/com/heliosphere/athena/base/command/CommandParameter.java:62-90 | an INTEGER or LONG value is `valueOf` of the raw text and fails with it; a BOOLEAN is true exactly for "true" in any case; a STRING keeps the text or null |
| Commands.NewParameterWithValue | athena-base/src/main/java/com/heliosphere/athena/base/command/CommandParameter.java:62-90 | a definition without a type raises; otherwise the value is the conversion of the raw text under that type, and the construction succeeds exactly when the conversion does |
| Commands.CoercionRoundTrip | athena-base/src/main/java/com/heliosphere/athena/base/command/CommandParameter.java:62-90 | integers and longs read back their own rendering, booleans never fail, strings are stored unchanged, and a null integer raises |
| Commands.SetParameterMetadata | athena-base/src/main/java/com/heliosphere/athena/base/command/CommandParameter.java:111-114 | only the definition is replaced |
| Commands.NewCommand | athena-base/src/main/java/com/heliosphere/athena/base/command/interpreter/CommandInterpreter.java:326 | the command the interpreter builds from a protocol and the text: both stored, no definition and no parameter list |
| Commands.SetMetadata | athena-base/src/main/java/com/heliosphere/athena/base/command/Command.java:75-78 | only the definition is replaced |
| Commands.AddCommandParameter | athena-base/src/main/java/com/heliosphere/athena/base/command/Command.java:81-89 | the parameter joins the end of the list, created on first use, and nothing else changes |
| Commands.AddCommandParameters | athena-base/src/main/java/com/heliosphere/athena/base/command/Command.java:81-89 | adding a list of parameters appends them all in order, and adding none changes nothing |
| Commands.GetParameter | athena-base/src/main/java/com/heliosphere/athena/base/command/Command.java:92-106 | the parameter found is the first of the command's with the name; none found means no parameter has it |
| Commands.AddThenGetParameter | athena-base/src/main/java/com/heliosphere/athena/base/command/Command.java:81-106 | a parameter added under a fresh name is the one `getParameter` returns for it |
| Regex.SpanRun | athena-base/src/main/java/com/heliosphere/athena/base/command/interpreter/CommandInterpreter.java:55 | a possessive star takes the longest run of characters of its class from the start point, and no more |
| Regex.SpanIs | athena-base/src/main/java/com/heliosphere/athena/base/command/interpreter/CommandInterpreter.java:55 | a run of matching characters not followed by another is exactly what the star takes |
| Regex.LineShape | athena-base/src/main/java/com/heliosphere/athena/base/command/interpreter/CommandInterpreter.java:55 | where the blanks, the prefix, the gap and the name of a line sit |
| Registry.Get | athena-base/src/main/java/com/heliosphere/athena/base/command/interpreter/CommandInterpreter.java:94 | `commands.get(k)`: null exactly when no entry has the key, else the definition of an entry with it |
| Registry.GetExtends | athena-base/src/main/java/com/heliosphere/athena/base/command/interpreter/CommandInterpreter.java:96 | adding entries never changes what an existing key maps to |
| Registry.BindAll | athena-base/src/main/java/com/heliosphere/athena/base/command/interpreter/CommandInterpreter.java:106-116 | the parameter loop only adds entries, at most one per parameter, and the only exception it raises is a protocol already defined |
| Registry.BindAllSuccess | athena-base/src/main/java/com/heliosphere/athena/base/command/interpreter/CommandInterpreter.java:106-116 | the loop keeps keys unique, and succeeds exactly when every parameter's protocol is fresh and distinct, adding one entry per parameter in order |
| Registry.BindAllEntries | athena-base/src/main/java/com/heliosphere/athena/base/command/interpreter/CommandInterpreter.java:110 | every entry the loop adds files the definition under one of its parameters' protocols, whether or not it ends by raising |
| Registry.BindAllFailure | athena-base/src/main/java/com/heliosphere/athena/base/command/interpreter/CommandInterpreter.java:114 | the exception names a parameter's protocol that is bound when it is raised |
| Registry.Bindings | athena-base/src/main/java/com/heliosphere/athena/base/command/interpreter/CommandInterpreter.java:106-116 | one entry per parameter, in order, binding its protocol to the definition |
| Registry.RegisterCommand | athena-base/src/main/java/com/heliosphere/athena/base/command/interpreter/CommandInterpreter.java:88-118 | a command-level protocol is bound exactly when it is free, else the registry is unchanged and the exception names it; without one and without parameters, a null dereference; nothing registered before is lost |
| Registry.RegisterPreserves | athena-base/src/main/java/com/heliosphere/athena/base/command/interpreter/CommandInterpreter.java:88-118 | registration keeps keys unique and every definition filed under its own keys, raising or not; success binds every key of the definition to it |
| Registry.RegisterCommands | athena-base/src/main/java/com/heliosphere/athena/base/command/interpreter/CommandInterpreter.java:121-127 | registering a list never loses an earlier entry |
| Registry.RegisterCommandsBinds | athena-base/src/main/java/com/heliosphere/athena/base/command/interpreter/CommandInterpreter.java:121-127 | after a successful registration of a list, every key of every listed definition is bound to it, and the map stays well formed |
| Registry.AnyParameter | athena-base/src/main/java/com/heliosphere/athena/base/command/interpreter/CommandInterpreter.java:150-160 | the inner loop selects exactly when some parameter has a non-null protocol with the attribute |
| Registry.Selects | athena-base/src/main/java/com/heliosphere/athena/base/command/interpreter/CommandInterpreter.java:139-161 | one definition raises exactly when it has neither a command-level protocol nor a parameter list, and is otherwise selected exactly by the declarative rule |
| Registry.FindBy | athena-base/src/main/java/com/heliosphere/athena/base/command/interpreter/CommandInterpreter.java:135-165 | the scan raises exactly when some definition has neither protocol nor parameters; otherwise it holds exactly the selected definitions |
| Registry.FindByAppend | athena-base/src/main/java/com/heliosphere/athena/base/command/interpreter/CommandInterpreter.java:135-165 | the scan is an ordered filter: one more entry adds its definition exactly when selected, once |
| Registry.FindBySafe | athena-base/src/main/java/com/heliosphere/athena/base/command/interpreter/CommandInterpreter.java:135-165 | on a well-formed registry the scan never raises |
| Registry.FindByCategory | athena-base/src/main/java/com/heliosphere/athena/base/command/interpreter/CommandInterpreter.java:135-165 | the definitions found are exactly those of the category |
| Registry.FindByGroup | athena-base/src/main/java/com/heliosphere/athena/base/command/interpreter/CommandInterpreter.java:173-203 | the definitions found are exactly those of the group |
| Registry.FindByDomain | athena-base/src/main/java/com/heliosphere/athena/base/command/interpreter/CommandInterpreter.java:211-241 | the definitions found are exactly those of the domain |
| Registry.Answers | athena-base/src/main/java/com/heliosphere/athena/base/command/interpreter/CommandInterpreter.java:255-266 | raises exactly when the name differs and the alias list is null; otherwise true exactly when the name or an alias matches |
| Registry.GetCommandByProtocol | athena-base/src/main/java/com/heliosphere/athena/base/command/interpreter/CommandInterpreter.java:250-270 | the definition bound to the protocol when it answers to the name or an alias; null when unbound or not answering; raises on a null alias list reached |
| Registry.FirstNamed | athena-base/src/main/java/com/heliosphere/athena/base/command/interpreter/CommandInterpreter.java:283-302 | the first definition answering to the name or alias; null exactly when none answers and all alias lists are present |
| Registry.GetCommandByCategory | athena-base/src/main/java/com/heliosphere/athena/base/command/interpreter/CommandInterpreter.java:279-303 | a definition found answers to the name and is of the category |
| Registry.GetCommandByCategoryIff | athena-base/src/main/java/com/heliosphere/athena/base/command/interpreter/CommandInterpreter.java:279-303 | on a well-formed registry with alias lists, the lookup never raises and finds a definition exactly when one of the category answers |
| Interpreter.MatchHead | athena-base/src/main/java/com/heliosphere/athena/base/command/interpreter/CommandInterpreter.java:55 | the head found is a prefix of the line; group 1 ends it, preceded only by blanks; no head exactly when only blanks and line terminators are reached |
| Interpreter.HeadOf | athena-base/src/main/java/com/heliosphere/athena/base/command/interpreter/CommandInterpreter.java:55 | a line of blanks, a prefix, blanks, a word and a non-word rest has that head, and group 1 is the prefix, gap and word |
| Interpreter.HeadAt | athena-base/src/main/java/com/heliosphere/athena/base/command/interpreter/CommandInterpreter.java:55 | the same stated over positions of the line |
| Interpreter.ExtractCommand | athena-base/src/main/java/com/heliosphere/athena/base/command/interpreter/CommandInterpreter.java:349-386 | no head means no definition; a found definition is the category lookup of the head's prefix and name without blanks and answers to that name; the copy loses group 1 trimmed; every failure is the checked no-definition error |
| Interpreter.ExtractShrinks | athena-base/src/main/java/com/heliosphere/athena/base/command/interpreter/CommandInterpreter.java:382 | a resolved head always leaves a strictly shorter copy |
| Interpreter.ExtractNormal | athena-base/src/main/java/com/heliosphere/athena/base/command/interpreter/CommandInterpreter.java:359-374 | `/`, blanks and a word resolve in NORMAL by that word exactly as typed; not found raises |
| Interpreter.NormalHead | athena-base/src/main/java/com/heliosphere/athena/base/command/interpreter/CommandInterpreter.java:363-368 | such a head is read whole, trims to itself and loses only its blanks |
| Interpreter.WithoutSpaces | athena-base/src/main/java/com/heliosphere/athena/base/command/interpreter/CommandInterpreter.java:366 | removing blanks from `/`, blanks and a word leaves `/` and the word |
| Interpreter.LastPresent | athena-base/src/main/java/com/heliosphere/athena/base/command/interpreter/CommandInterpreter.java:447-453 | the position found is the last group that took part; none exactly when no group did |
| Interpreter.LastValue | athena-base/src/main/java/com/heliosphere/athena/base/command/interpreter/CommandInterpreter.java:447-453 | the last group that took part wins, trimmed; with none, the earlier value stays |
| Interpreter.Scan | athena-base/src/main/java/com/heliosphere/athena/base/command/interpreter/CommandInterpreter.java:436-486 | an accepted parameter belongs to the definition; an untagged one takes the whole copy and empties it; a tagged one sets the protocol to its own; the only failure is an exception, never a runaway loop |
| Interpreter.GetNextParameter | athena-base/src/main/java/com/heliosphere/athena/base/command/interpreter/CommandInterpreter.java:427-487 | an accepted parameter belongs to the definition and the protocol is kept or becomes that parameter's |
| Interpreter.EmptyTagSwallows | athena-base/src/main/java/com/heliosphere/athena/base/command/interpreter/CommandInterpreter.java:471-483 | the first untagged definition takes the whole copy as text and value and empties the copy |
| Interpreter.ScanShrinks | athena-base/src/main/java/com/heliosphere/athena/base/command/interpreter/CommandInterpreter.java:456-468 | with a well-behaved engine an accepted parameter leaves a shorter or empty copy |
| Interpreter.ExtractParameters | athena-base/src/main/java/com/heliosphere/athena/base/command/interpreter/CommandInterpreter.java:394-418 | a null parameter list raises; every parameter found belongs to the definition; finding none leaves copy and protocol; the protocol is the initial one or a found parameter's |
| Interpreter.NeverExhausted | athena-base/src/main/java/com/heliosphere/athena/base/command/interpreter/CommandInterpreter.java:400-415 | with a well-behaved engine, that is for parameter expressions without look-around, the parameter loop always ends |
| Interpreter.Assemble | athena-base/src/main/java/com/heliosphere/athena/base/command/interpreter/CommandInterpreter.java:316-331 | raises exactly when the definition declares parameters, none were found and no protocol is known; otherwise the command keeps text and definition, has the parameters found, and the protocol of the definition unless a parameter supplied one |
| Interpreter.Interpret | athena-base/src/main/java/com/heliosphere/athena/base/command/interpreter/CommandInterpreter.java:307-339 | a command keeps the text as typed and the definition is a registered one; "unknown command" exactly when the trimmed line has no head |
| Interpreter.InterpretShape | athena-base/src/main/java/com/heliosphere/athena/base/command/interpreter/CommandInterpreter.java:316-331 | parameters come from the definition; with none found the protocol is the definition's, and known when the definition declares parameters; otherwise it is the definition's or a found parameter's |
| Interpreter.InterpretBlank | athena-base/src/main/java/com/heliosphere/athena/base/command/interpreter/CommandInterpreter.java:333-336 | a blank line is an unknown command |
| Interpreter.InterpretUnfound | athena-base/src/main/java/com/heliosphere/athena/base/command/interpreter/CommandInterpreter.java:369-373 | a normal line whose name the category lookup does not find raises the no-definition error |
| Interpreter.InterpretUndefined | athena-base/src/main/java/com/heliosphere/athena/base/command/interpreter/CommandInterpreter.java:369-373 | when no NORMAL definition answers to the typed name, whatever follows, interpretation raises |
| Interpreter.ScanSafe | athena-base/src/main/java/com/heliosphere/athena/base/command/interpreter/CommandInterpreter.java:456-469 | with each definition's group 1 being its own tag, the scan never raises |
| Interpreter.ExtractSafe | athena-base/src/main/java/com/heliosphere/athena/base/command/interpreter/CommandInterpreter.java:394-418 | with a well-behaved engine and such expressions the parameter loop ends without raising |
| Interpreter.InterpretSucceeds | athena-base/src/main/java/com/heliosphere/athena/base/command/interpreter/CommandInterpreter.java:313-331 | a head resolving to a definition with a command-level protocol and such parameters gives a command with that definition and a protocol |
| Interpreter.InterpretNormal | athena-base/src/main/java/com/heliosphere/athena/base/command/interpreter/CommandInterpreter.java:307-339 | `/`, blanks and the name of such a NORMAL definition give a command of it carrying a protocol |
| ChatExample.ChatRegistered | athena-base/src/test/java/com/heliosphere/athena/base/test/command/file/xml/XmlChatCommandFileTest.java:199-200 | registering `help` then `quit` binds HELP and QUIT and gives a well-formed registry |
| ChatExample.ChatLookups | athena-base/src/test/java/com/heliosphere/athena/base/test/command/file/xml/XmlChatCommandFileTest.java:199-200 | both are NORMAL; `help` answers to its name and to `h`; nothing answers to `clip` |
| ChatExample.HelpWithCategoryAccepted | athena-base/src/test/java/com/heliosphere/athena/base/test/command/file/xml/XmlChatCommandFileTest.java:202-203 | `/     help      -cat` gives a command of `help` |
| ChatExample.HelpAloneAccepted | athena-base/src/test/java/com/heliosphere/athena/base/test/command/file/xml/XmlChatCommandFileTest.java:205-206 | `/     help` alone gives a command of `help` |
| ChatExample.HelpWithNameAccepted | athena-base/src/test/java/com/heliosphere/athena/base/test/command/file/xml/XmlChatCommandFileTest.java:208-209 | `/     help      -name=help` gives a command of `help` |
| ChatExample.KnownLine | athena-base/src/main/java/com/heliosphere/athena/base/command/interpreter/CommandInterpreter.java:307-339 | a line of `/`, five blanks, a found name and a non-word rest, between blanks, gives a command of that definition |
| ChatExample.ClipRaises | athena-base/src/test/java/com/heliosphere/athena/base/test/command/file/xml/XmlChatCommandFileTest.java:241-247 | `/     clip    clatis` raises the no-definition error |
| ChatExample.UnknownLine | athena-base/src/main/java/com/heliosphere/athena/base/command/interpreter/CommandInterpreter.java:369-373 | a line whose name nothing answers to raises the no-definition error |
| ChatExample.ChatCatalogue | athena-base/src/test/java/com/heliosphere/athena/base/test/command/file/xml/XmlChatCommandFileTest.java:160-187 | `quit` is found by name and `Quit` is not; `h` finds `help` alone and `exit` finds `quit` |
| Legacy.NewParameterDefinition | athena-base/src/main/java/com/heliosphere/athena/base/command/internal/CommandParameterMetadata.java:83-88 | name, description and tag stored; expression, type and examples unset |
| Legacy.AddExample | athena-base/src/main/java/com/heliosphere/athena/base/command/internal/CommandParameterMetadata.java:91-99 | the example joins the end of the list, created on first use, and nothing else changes |
| Legacy.ExamplesInOrder | athena-base/src/main/java/com/heliosphere/athena/base/command/internal/CommandParameterMetadata.java:91-99 | two examples added to a new definition are kept in order |
| Legacy.NewDefinition | athena-base/src/main/java/com/heliosphere/athena/base/command/internal/CommandMetadata.java:105-111 | category, group, code and name stored; the rest unset |
| Legacy.AddParameter | athena-base/src/main/java/com/heliosphere/athena/base/command/internal/CommandMetadata.java:114-122 | the parameter joins the end of the list, created on first use, and nothing else changes |
| Legacy.GetByName | athena-base/src/main/java/com/heliosphere/athena/base/command/internal/CommandMetadata.java:125-136 | raises exactly on a null list; otherwise the first parameter with that exact name, none exactly when no parameter has it |
| Legacy.GetByTag | athena-base/src/main/java/com/heliosphere/athena/base/command/internal/CommandMetadata.java:139-150 | raises exactly on a null list; otherwise the first parameter with that exact tag, none exactly when no parameter has it |
| Legacy.AddThenFind | athena-base/src/main/java/com/heliosphere/athena/base/command/internal/CommandMetadata.java:114-150 | a parameter just added under a fresh name and tag is found by both |
| Legacy.NewCommand | athena-base/src/main/java/com/heliosphere/athena/base/command/internal/Command.java:41-44 | text stored; no definition and no parameters |
| Legacy.SetMetadata | athena-base/src/main/java/com/heliosphere/athena/base/command/internal/Command.java:65-68 | only the definition is replaced |
| Legacy.AddCommandParameter | athena-base/src/main/java/com/heliosphere/athena/base/command/internal/Command.java:71-79 | the parameter joins the end of the list and nothing else changes |
| Legacy.CommandParametersInOrder | athena-base/src/main/java/com/heliosphere/athena/base/command/internal/Command.java:71-79 | parameters added one by one are kept in order; none added leaves the list null |
| Legacy.RegisterCommand | athena-base/src/main/java/com/heliosphere/athena/base/command/internal/interpreter/CommandInterpreter.java:64-82 | the definition ends up in its category's list, appended unless already there; other categories are untouched |
| Legacy.RegisterKeepsFiled | athena-base/src/main/java/com/heliosphere/athena/base/command/internal/interpreter/CommandInterpreter.java:64-82 | registration is idempotent and keeps every list filed under its category and free of repeats |
| Legacy.RegisterCommandsFiles | athena-base/src/main/java/com/heliosphere/athena/base/command/internal/interpreter/CommandInterpreter.java:89-95 | every listed definition ends up filed under its category, no earlier one is lost, and untouched categories stay as they were |
| Legacy.AliasScan | athena-base/src/main/java/com/heliosphere/athena/base/command/internal/interpreter/CommandInterpreter.java:127-137 | the definition found is the first with the alias, every one before it having an alias list without it; none exactly when every definition has an alias list without it; raises exactly when a null alias list is reached first |
| Legacy.GetCommand | athena-base/src/main/java/com/heliosphere/athena/base/command/internal/interpreter/CommandInterpreter.java:114-140 | an empty category raises; a definition with the exact name wins, the first one; otherwise the first one with the alias, every one before it having an alias list; null exactly when none has either; raises exactly when the category is empty or, no name matching, a null alias list is reached first |
| Legacy.MatchLine | athena-base/src/main/java/com/heliosphere/athena/base/command/internal/interpreter/CommandInterpreter.java:39 | group 2 is one non-blank character beginning group 1, which is preceded only by blanks and followed by no line terminator; group 3 ends group 1 and holds letters, digits and blanks |
| Legacy.BlankLine | athena-base/src/main/java/com/heliosphere/athena/base/command/internal/interpreter/CommandInterpreter.java:39 | a line of blanks only has no head, since the prefix must be a character that is not a blank |
| Legacy.LineOf | athena-base/src/main/java/com/heliosphere/athena/base/command/internal/interpreter/CommandInterpreter.java:39 | a line of blanks, a prefix, blanks, a name and a rest without line terminator has exactly that head |
| Legacy.BrokenLine | athena-base/src/main/java/com/heliosphere/athena/base/command/internal/interpreter/CommandInterpreter.java:39 | a line terminator after the name makes the whole line fail to match |
| Legacy.ExtractCommand | athena-base/src/main/java/com/heliosphere/athena/base/command/internal/interpreter/CommandInterpreter.java:168-201 | no match, no definition; a found definition is the lookup of the trimmed prefix and name and the copy loses every occurrence of group 1; failures are an invalid prefix or a null dereference |
| Legacy.Somes | athena-base/src/main/java/com/heliosphere/athena/base/command/internal/interpreter/CommandInterpreter.java:263-269 | the values of the groups that took part, in order |
| Legacy.Present | athena-base/src/main/java/com/heliosphere/athena/base/command/internal/interpreter/CommandInterpreter.java:263-269 | every group that took part, trimmed, in order |
| Legacy.Scan | athena-base/src/main/java/com/heliosphere/athena/base/command/internal/interpreter/CommandInterpreter.java:250-283 | an accepted parameter's definition is listed, its group 1 is its tag, its text is the match, its values extend those left by earlier definitions, and the copy loses the match |
| Legacy.GetNextParameter | athena-base/src/main/java/com/heliosphere/athena/base/command/internal/interpreter/CommandInterpreter.java:241-284 | an accepted parameter belongs to the definition and the copy loses its text, trimmed |
| Legacy.ExtractParameters | athena-base/src/main/java/com/heliosphere/athena/base/command/internal/interpreter/CommandInterpreter.java:209-232 | a null parameter list raises; every parameter found belongs to the definition |
| Legacy.ScanShrinks | athena-base/src/main/java/com/heliosphere/athena/base/command/internal/interpreter/CommandInterpreter.java:272-279 | with tags present, an accepted parameter strictly shortens the copy |
| Legacy.NeverExhausted | athena-base/src/main/java/com/heliosphere/athena/base/command/internal/interpreter/CommandInterpreter.java:214-229 | with a well-behaved engine (expressions without look-around) and tagged definitions the parameter loop always ends |
| Legacy.Assemble | athena-base/src/main/java/com/heliosphere/athena/base/command/internal/interpreter/CommandInterpreter.java:144-161 | the command keeps the typed text and the definition, and holds the parameters found in order, or none |
| Legacy.Interpret | athena-base/src/main/java/com/heliosphere/athena/base/command/internal/interpreter/CommandInterpreter.java:144-161 | unknown command exactly when the head names no definition; the command keeps the text and the definition found, and its parameters are the definition's |
| Legacy.InterpretFiled | athena-base/src/main/java/com/heliosphere/athena/base/command/internal/interpreter/CommandInterpreter.java:144-161 | on a filed catalogue the command's definition is filed under its own category |
| CommandFile.FindWhere | athena-base/src/main/java/com/heliosphere/athena/base/command/file/xml/XmlCommandFile.java:114-127 | the definitions with the attribute, each once and in file order |
| CommandFile.FindWhereAppend | athena-base/src/main/java/com/heliosphere/athena/base/command/file/xml/XmlCommandFile.java:114-147 | the scan of two files joined is the two scans joined |
| CommandFile.FindWhereOne | athena-base/src/main/java/com/heliosphere/athena/base/command/file/xml/XmlCommandFile.java:114-147 | one definition contributes itself exactly when it has the attribute |
| CommandFile.FindByCategory | athena-base/src/main/java/com/heliosphere/athena/base/command/file/xml/XmlCommandFile.java:114-127 | the definitions found are exactly those of the category |
| CommandFile.FindByGroup | athena-base/src/main/java/com/heliosphere/athena/base/command/file/xml/XmlCommandFile.java:134-147 | the definitions found are exactly those of the group |
| CommandFile.GetByName | athena-base/src/main/java/com/heliosphere/athena/base/command/file/xml/XmlCommandFile.java:154-165 | the first definition with exactly that name; null exactly when none has it |
| CommandFile.Repeat | athena-base/src/main/java/com/heliosphere/athena/base/command/file/xml/XmlCommandFile.java:178-184 | one copy of the definition per listing of the alias |
| CommandFile.FindByAlias | athena-base/src/main/java/com/heliosphere/athena/base/command/file/xml/XmlCommandFile.java:172-188 | raises exactly when some definition has a null alias list; otherwise a definition is found exactly when it lists the alias; order and multiplicity are fixed by FindByAliasListings and FindByAliasAppend |
| CommandFile.OccurrencesCount | athena-base/src/main/java/com/heliosphere/athena/base/command/file/xml/XmlCommandFile.java:178-184 | an alias is listed exactly when it is counted at least once |
| CommandFile.FindByAliasOne | athena-base/src/main/java/com/heliosphere/athena/base/command/file/xml/XmlCommandFile.java:172-188 | one definition contributes itself once per listing of the alias |
| CommandFile.FindByAliasListings | athena-base/src/main/java/com/heliosphere/athena/base/command/file/xml/XmlCommandFile.java:172-188 | a successful search gives exactly the reference listing `AliasListings`: in file order, each definition once per listing of the alias |
| CommandFile.AliasListingsAppend | athena-base/src/main/java/com/heliosphere/athena/base/command/file/xml/XmlCommandFile.java:172-188 | the reference listing of two files joined is the two listings joined |
| CommandFile.FindByAliasAppend | athena-base/src/main/java/com/heliosphere/athena/base/command/file/xml/XmlCommandFile.java:172-188 | searching two files joined gives the first file's finds followed by the second's |
| CommandFile.FindByAliasAppendFails | athena-base/src/main/java/com/heliosphere/athena/base/command/file/xml/XmlCommandFile.java:172-188 | searching two files joined raises exactly when either file's search raises |
| CommandFile.FindByAliasCons | athena-base/src/main/java/com/heliosphere/athena/base/command/file/xml/XmlCommandFile.java:178-186 | a definition ahead of the rest contributes its copies before the rest's finds |
| Help.Then | athena-base/src/main/java/com/heliosphere/athena/base/command/processor/HelpCommandProcessor.java:68-82 | nothing is written after an exception; otherwise the second output follows the first |
| Help.ThenAssociative | athena-base/src/main/java/com/heliosphere/athena/base/command/processor/HelpCommandProcessor.java:68-82 | writing three parts in a row does not depend on grouping, and writing nothing is neutral |
| Help.HelpForAll | athena-base/src/main/java/com/heliosphere/athena/base/command/processor/HelpCommandProcessor.java:97-109 | a heading and four pieces per definition, never raising |
| Help.ListingSize | athena-base/src/main/java/com/heliosphere/athena/base/command/processor/HelpCommandProcessor.java:101-107 | four pieces per definition |
| Help.ListingBlocks | athena-base/src/main/java/com/heliosphere/athena/base/command/processor/HelpCommandProcessor.java:101-107 | the k-th block shows the k-th definition: its name padded to at least fifteen characters between brackets, then its description |
| Help.HelpForCategories | athena-base/src/main/java/com/heliosphere/athena/base/command/processor/HelpCommandProcessor.java:117-132 | raises exactly when the command has no definition, after the heading; otherwise four pieces per category constant |
| Help.CategoryBlocks | athena-base/src/main/java/com/heliosphere/athena/base/command/processor/HelpCommandProcessor.java:124-130 | the k-th block is the k-th category's prefix between brackets and its name |
| Help.CategoryListing | athena-base/src/main/java/com/heliosphere/athena/base/command/processor/HelpCommandProcessor.java:122-130 | the prefixes appear as `*`, `/`, `/`, `%`, `.`: NORMAL and ADMINISTRATION share `/` |
| Help.DefinitionByName | athena-base/src/main/java/com/heliosphere/athena/base/command/processor/HelpCommandProcessor.java:228-239 | the first definition whose name equals the argument ignoring case; none exactly when the name is null or no definition matches |
| Help.DefinitionByNameFinds | athena-base/src/main/java/com/heliosphere/athena/base/command/processor/HelpCommandProcessor.java:228-239 | a name in any letter case finds the first definition so spelt |
| Help.DetailedHelp | athena-base/src/main/java/com/heliosphere/athena/base/command/processor/HelpCommandProcessor.java:156-219 | raises exactly on a null alias or parameter list; a banner, then the alias heading or its absence, then the parameter heading or its absence, then the closing rule; the lines in between are fixed by DetailedHelpAliases and DetailedHelpParameters |
| Help.AliasLinesShow | athena-base/src/main/java/com/heliosphere/athena/base/command/processor/HelpCommandProcessor.java:172-176 | each alias on its own line after a bar, in order |
| Help.AliasPart | athena-base/src/main/java/com/heliosphere/athena/base/command/processor/HelpCommandProcessor.java:169-181 | the heading and a line pair per alias, or the single no-alias line; its length places the parameter part |
| Help.ParameterPart | athena-base/src/main/java/com/heliosphere/athena/base/command/processor/HelpCommandProcessor.java:184-212 | the heading followed by the parameter lines, or the single no-parameter line |
| Help.DetailedHelpAliases | athena-base/src/main/java/com/heliosphere/athena/base/command/processor/HelpCommandProcessor.java:169-177 | after the banner and heading, the aliases appear exactly as their line pairs |
| Help.DetailedHelpParameters | athena-base/src/main/java/com/heliosphere/athena/base/command/processor/HelpCommandProcessor.java:184-205 | between the parameters heading and the closing rule come exactly the parameters' lines |
| Help.ParametersBlocks | athena-base/src/main/java/com/heliosphere/athena/base/command/processor/HelpCommandProcessor.java:187-204 | the k-th parameter's block follows those before it: name, description, expression, then the examples under their heading or the no-example line |
| Help.ParametersSplit | athena-base/src/main/java/com/heliosphere/athena/base/command/processor/HelpCommandProcessor.java:187-204 | the lines of a list are those before a parameter, then its block, then those after it |
| Help.ParameterLinesShape | athena-base/src/main/java/com/heliosphere/athena/base/command/processor/HelpCommandProcessor.java:189-203 | a block is six fixed pieces then the examples heading with two lines per example, or the no-example line; a null example list counts as none |
| Help.ParametersAppend | athena-base/src/main/java/com/heliosphere/athena/base/command/processor/HelpCommandProcessor.java:187-204 | the lines of two lists joined are the two lists' lines joined |
| Help.ExampleLinesShow | athena-base/src/main/java/com/heliosphere/athena/base/command/processor/HelpCommandProcessor.java:197-201 | each example on its own line after an indented bar, in order |
| Help.HelpForName | athena-base/src/main/java/com/heliosphere/athena/base/command/processor/HelpCommandProcessor.java:151-220 | the detailed help of the definition named, or nothing when none is |
| Help.HelpProtocolFacts | athena-base/src/main/java/com/heliosphere/athena/base/command/processor/HelpCommandProcessor.java:39 | the processor's protocol is HELP: every letter-case spelling of `help` resolves to it, in the SYSTEM group and NORMAL category |
| Help.ForParameter | athena-base/src/main/java/com/heliosphere/athena/base/command/processor/HelpCommandProcessor.java:70-81 | `category` lists the categories, `name` gives the named definition's help, any other name writes nothing |
| Help.Execute | athena-base/src/main/java/com/heliosphere/athena/base/command/processor/HelpCommandProcessor.java:58-88 | a null command gets only the warning; no parameter list lists every definition; an empty one writes nothing |
| Help.ForParametersAppend | athena-base/src/main/java/com/heliosphere/athena/base/command/processor/HelpCommandProcessor.java:68-82 | the help of two parameter lists joined is the two helps in a row |
| Help.OtherParametersSilent | athena-base/src/main/java/com/heliosphere/athena/base/command/processor/HelpCommandProcessor.java:140-142 | parameters named neither `category` nor `name`, `set` among them, write nothing |
| Responses.StatusTable | athena-base/src/main/java/com/heliosphere/athena/base/command/response/CommandStatusType.java:29-39 | the three states in declaration order |
| Responses.StatusFromString | athena-base/src/main/java/com/heliosphere/athena/base/command/response/CommandStatusType.java:50-66 | a found state's name equals the argument ignoring case; blank input raises |
| Responses.StatusFromStringName | athena-base/src/main/java/com/heliosphere/athena/base/command/response/CommandStatusType.java:50-66 | any letter-case spelling of a state's name finds it |
| Responses.StatusFromStringFails | athena-base/src/main/java/com/heliosphere/athena/base/command/response/CommandStatusType.java:50-66 | the lookup raises exactly on blank text or an unknown name |
| Responses.NewResponse | athena-base/src/main/java/com/heliosphere/athena/base/command/response/CommandResponse.java:56-60 | command and status stored, no lists |
| Responses.AddMessage | athena-base/src/main/java/com/heliosphere/athena/base/command/response/CommandResponse.java:67-75 | the message joins the end of the list, created on first use, and nothing else changes |
| Responses.AddException | athena-base/src/main/java/com/heliosphere/athena/base/command/response/CommandResponse.java:82-90 | the exception joins the end of its list and nothing else changes |
| Responses.MessagesInOrder | athena-base/src/main/java/com/heliosphere/athena/base/command/response/CommandResponse.java:67-75 | messages added to a new response are kept in order and nothing else changes |
| Responses.MessageExceptionCommute | athena-base/src/main/java/com/heliosphere/athena/base/command/response/CommandResponse.java:67-90 | adding a message and adding an exception commute |
| Terminals.TerminalStatusTable | athena-base/src/main/java/com/heliosphere/athena/base/terminal/TerminalStatusType.java:28-48 | the five states in declaration order |
| Terminals.TerminalStatusFromString | athena-base/src/main/java/com/heliosphere/athena/base/terminal/TerminalStatusType.java:59-75 | a found state's name equals the argument ignoring case; blank input raises |
| Terminals.TerminalStatusFromStringName | athena-base/src/main/java/com/heliosphere/athena/base/terminal/TerminalStatusType.java:59-75 | any letter-case spelling of a state's name finds it |
| Terminals.TerminalStatusFromStringFails | athena-base/src/main/java/com/heliosphere/athena/base/terminal/TerminalStatusType.java:59-75 | the lookup raises exactly on blank text or an unknown name |
| Terminals.Start | athena-base/src/main/java/com/heliosphere/athena/base/terminal/AbstractTerminal.java:99-107 | a terminal never started, or stopped, runs; any other state is kept |
| Terminals.Stop | athena-base/src/main/java/com/heliosphere/athena/base/terminal/AbstractTerminal.java:112-118 | only a running terminal stops |
| Terminals.Resume | athena-base/src/main/java/com/heliosphere/athena/base/terminal/AbstractTerminal.java:123-129 | only a paused terminal runs again |
| Terminals.Pause | athena-base/src/main/java/com/heliosphere/athena/base/terminal/AbstractTerminal.java:134-140 | only a running terminal pauses |
| Terminals.TransitionsIdempotent | athena-base/src/main/java/com/heliosphere/athena/base/terminal/AbstractTerminal.java:99-140 | every transition is idempotent and none leads into INITIALIZE |
| Terminals.NeverInitializing | athena-base/src/main/java/com/heliosphere/athena/base/terminal/AbstractTerminal.java:99-140 | from a new terminal no sequence of calls reaches INITIALIZE, and a paused terminal must resume before it can stop |
| Terminals.Process | athena-base/src/main/java/com/heliosphere/athena/base/terminal/Terminal.java:45-73 | the command is always PROCESSED; a NORMAL `afk` or `who` gets its message and any other command none |
| Terminals.Output | athena-base/src/main/java/com/heliosphere/athena/base/terminal/Terminal.java:76-124 | raises exactly when a fallback line needs the name of a null definition, and then keeps what was printed before: nothing, or on FAILED the messages; UNPROCESSED prints "The command: <name> has not been processed!"; PROCESSED prints the messages, or "> command: <name> has been processed sucessfully." without them; FAILED prints the messages and the exceptions' messages, or the messages then "The command: <name> has failed!" without exceptions |
| Terminals.ProcessThenOutput | athena-base/src/main/java/com/heliosphere/athena/base/terminal/Terminal.java:45-124 | a processed `afk` or `who` prints its message; any other command prints the success line |
| Coordinator.RegisterExecutable | athena-base/src/main/java/com/heliosphere/athena/base/command/internal/coordinator/CommandCoordinator.java:87-100 | the key is bound to the executable, null included; a warning for a key already bound and one for a null executable |
| Coordinator.RegisterIsolated | athena-base/src/main/java/com/heliosphere/athena/base/command/internal/coordinator/CommandCoordinator.java:87-100 | other keys are untouched and registering a key again replaces the earlier binding |
| Coordinator.Execute | athena-base/src/main/java/com/heliosphere/athena/base/command/internal/coordinator/CommandCoordinator.java:376-392 | an unbound or null processor is ignored; a command exception prints one error line and is swallowed; any other exception propagates; a processor that completes normally leaves nothing printed |
| Coordinator.RegisterThenExecute | athena-base/src/main/java/com/heliosphere/athena/base/command/internal/coordinator/CommandCoordinator.java:87-392 | after registering a processor, executing its protocol runs it; after registering null, it is ignored |
| StructuredFile.NewStructuredFile | athena-base/src/main/java/com/heliosphere/athena/base/file/internal/AbstractStructuredFile.java:71-78 | header, content and footer start empty |
| StructuredFile.GetHeader | athena-base/src/main/java/com/heliosphere/athena/base/file/internal/AbstractStructuredFile.java:84-87 | the first header, or null when there is none |
| StructuredFile.GetFooter | athena-base/src/main/java/com/heliosphere/athena/base/file/internal/AbstractStructuredFile.java:110-113 | the first footer, or null when there is none |
| StructuredFile.SetHeader | athena-base/src/main/java/com/heliosphere/athena/base/file/internal/AbstractStructuredFile.java:90-94 | the header list holds exactly one element and the rest is unchanged |
| StructuredFile.SetFooter | athena-base/src/main/java/com/heliosphere/athena/base/file/internal/AbstractStructuredFile.java:116-120 | the footer list holds exactly one element and the rest is unchanged |
| StructuredFile.SetContent | athena-base/src/main/java/com/heliosphere/athena/base/file/internal/AbstractStructuredFile.java:103-107 | another list becomes the content; the file's own list empties it; a null list empties it and then raises, exactly then |
| StructuredFile.SetThenGet | athena-base/src/main/java/com/heliosphere/athena/base/file/internal/AbstractStructuredFile.java:84-120 | a header or footer set is the one read back, and setting one leaves the other |
| StructuredFile.SetOwnContent | athena-base/src/main/java/com/heliosphere/athena/base/file/internal/AbstractStructuredFile.java:97-107 | `setContent(getContent())` empties the content without raising, while a copy keeps the file as it was |
| Bundle.GetKey | athena-base/src/main/java/com/heliosphere/athena/base/resource/bundle/BundleAthenaBase.java:651-656 | the file name and the root keep their raw key; every other key is the root followed by the raw key |
| Bundle.OnlyFilenameUnrooted | athena-base/src/main/java/com/heliosphere/athena/base/resource/bundle/BundleAthenaBase.java:651-656 | a key starts with the root exactly when its raw key is not the file name |
| Bundle.GetKeyInjective | athena-base/src/main/java/com/heliosphere/athena/base/resource/bundle/BundleAthenaBase.java:651-656 | distinct non-empty raw keys give distinct keys |
| Bundle.EmptyKeyIsRoot | athena-base/src/main/java/com/heliosphere/athena/base/resource/bundle/BundleAthenaBase.java:651-656 | an empty raw key would give the root's key |
| Bundle.SampleKeys | athena-base/src/main/java/com/heliosphere/athena/base/resource/bundle/BundleAthenaBase.java:61-79 | `test.dummy` and `class.initializing` are looked up under the root |

## Left out

- Terminal I/O, Swing panes, colours, threads and file loading are not modelled. Output is a sequence of strings.
- The blank `println` lines the help processor writes to the terminal's standard output are left out of its output.
- The debug lines `Group <i> : <group i>` that the earlier interpreter writes to standard output for every group of a match, at athena-base/src/main/java/com/heliosphere/athena/base/command/internal/interpreter/CommandInterpreter.java:187-190 and :258-261, are left out; they change no state.
- Regular-expression matching of parameter expressions is abstract (`Engine`). The properties that rely on it assume only what `java.util.regex` guarantees for expressions without look-around (`WellBehaved`), and where needed that group 1 is the tag (`Faithful`).
- `HashMap` iteration order is taken to be insertion order. Java's real order depends on hashing.
- Case folding is ASCII only. Java's `equalsIgnoreCase` also folds non-ASCII letters, so a lookup argument such as U+017F (long s) or U+212A (Kelvin sign) that Java matches against `S` or `K` fails in the model. The repository's constants are all ASCII, but user input need not be.
- Strings are sequences of Unicode scalar values, while Java strings are sequences of UTF-16 code units. For a text with characters outside the Basic Multilingual Plane, lengths and positions differ from Java's: the padding to 15 columns at athena-base/src/main/java/com/heliosphere/athena/base/command/processor/HelpCommandProcessor.java:104, and the positions `trim` and `replace` work with.
- Object identity is modelled as value equality: `list.contains` and `==` on definitions compare values.
- Interpreter.ExtractParameters: a parameter accepted without shortening the working copy would make the source loop forever. It is modelled as the failure `Exhausted`. `NeverExhausted` proves that this cannot happen with a well-behaved engine, that is, for expressions without look-around. A look-ahead expression such as `(?=(-cat))` matches an empty group 0 while group 1 lies outside it; the source then removes nothing from the copy and does not terminate (athena-base/src/main/java/com/heliosphere/athena/base/command/interpreter/CommandInterpreter.java:400-415). The model returns `Exhausted` there.
- Legacy.ExtractParameters: the loop bound is the same `Exhausted` failure, but its proof, `Legacy.NeverExhausted`, needs a further restriction besides a well-behaved engine: every parameter definition has a non-empty tag. An untagged definition whose expression matches the empty text, such as `(x*)` on `abc`, is accepted because its empty group 1 equals the empty tag; removing the empty match leaves the copy as it was, so the loop at athena-base/src/main/java/com/heliosphere/athena/base/command/internal/interpreter/CommandInterpreter.java:214-229 (through :272-279) never ends, and the model returns `Exhausted`. A look-ahead expression makes the same loop run forever even with tags.
- JavaNumbers.ParseDecimal: digits are the ASCII digits `0`-`9`. Java's `Character.digit` also accepts the other Unicode decimal digits (Arabic-Indic, Devanagari, fullwidth and so on), which the model rejects.
- JavaNumbers.IntegerValueOf: only ASCII digits are modelled, as for `ParseDecimal`.
- JavaNumbers.LongValueOf: only ASCII digits are modelled, as for `ParseDecimal`.
- The resolution of a protocol from its class name by reflection is a resolver parameter. Only the default protocol enum is given one.
- The chat command XML file is not part of this model. The chat example writes its two definitions out as constants.
- The internal `CommandParameter.java` is not part of this model; the earlier interpreter's parameter is a record of text, definition and values.
- `XmlCommandFile.getProtocolCategory` and `getProtocolGroup` are not declared by the definitions the file holds. The category and group readers are parameters.
- `XmlCommandFile` loading and `setAliases` are left out; they are XML I/O.
- HelpCommandProcessor's category listing reads the protocol type from the internal command metadata, and `Command.getParameter` of the internal command, neither of which the internal classes implement. The listing uses the category enum of the earlier generation, and the value of the `name` parameter is an argument.
- A null definitions list in the help processor is not modelled.
- `extractCommandsForCategory` (the `set` parameter) has an empty body, and it writes nothing in the model.
- A null response status in `Terminal.process` is not modelled.
- A command whose definition is null in `CommandCoordinator.execute` is not modelled.
- The coordinator's other members (terminal set-up, the command thread) are left out.
- The protected no-argument constructor of `AbstractStructuredFile`, which leaves the lists null, is left out.
- Bundle.GetKey: the 82 raw keys of the bundle are not listed, so their pairwise distinctness is not proved. Injectivity is proved for non-empty raw keys.
- `ResourceBundleManager.getMessage` and the bundle's text are left out.
- LegacyTypes.ProtocolMessage: `CommandProtocolType` names message constants through a test enum that lacks two of them. The model maps them to the default message type enum.
- `Command.java` of the newer generation declares only a constructor taking the text and no protocol field, while the interpreter builds its command from a protocol and the text. The model follows the interpreter: `Commands.Command` carries the protocol.
- Message content classes are names, not classes.
- Commands.CommandMetadata: the `protocol` field, read as `getProtocolType`, is the model's own. athena-base/src/main/java/com/heliosphere/athena/base/command/CommandMetadata.java:40-129 declares no such field and the constructor at athena-base/src/main/java/com/heliosphere/athena/base/command/CommandMetadata.java:140-147 sets none, yet athena-base/src/main/java/com/heliosphere/athena/base/command/interpreter/CommandInterpreter.java:91 calls `getProtocolType`. The `description`, `syntax`, `categoryType`, `groupType`, `codeType` and `messageType` fields are dropped, and so are the setters at athena-base/src/main/java/com/heliosphere/athena/base/command/CommandMetadata.java:190-257 that fill the last four by reflection.
- MessageTypes.Message: athena-base/src/main/java/com/heliosphere/athena/base/message/internal/AbstractMessage.java:56-77 declares only the constructors (type, category, content) and (type, category, response, content), so the `super` calls at athena-base/src/main/java/com/heliosphere/athena/base/message/Message.java:39-68 do not resolve. The protocol, original, status and correlation fields are the model's reading of those calls, and so are correlation 0 in the shorter factories and no content in CreateAnswer.
- Commands.Coerce: the cast to `DefaultParameterType` at athena-base/src/main/java/com/heliosphere/athena/base/command/CommandParameter.java:16 and :67 names a type that is not part of this model. It is identified with the parameter type enum of the protocol package, so the model never raises the `ClassCastException` a real cast to a different enum would raise, and the switch's `default` branch is unreachable and dropped.
- The `toString`, `equals` and `hashCode` of every record are left out.
