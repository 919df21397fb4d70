/** The closed lookup tables of the `command/protocol` package: command
    categories with their one-character prefixes, command groups, domains and
    codes, the three default command protocols, and the parameter value types.
    Every `fromString` here shares the shape defined in `EnumLookup`. */
module ProtocolTypes {
  import opened Outcomes
  import opened JavaText
  import opened EnumLookup

  /** The category of a command, typed as a one-character prefix. */
  datatype DefaultCommandCategoryType = Debug | Normal | Administration | SuperAdministration | System

  function CategoryName(x: DefaultCommandCategoryType): string {
    match x
    case Debug => "DEBUG"
    case Normal => "NORMAL"
    case Administration => "ADMINISTRATION"
    case SuperAdministration => "SUPER_ADMINISTRATION"
    case System => "SYSTEM"
  }

  /** The constants of `DefaultCommandCategoryType` in declaration order. */
  const CategoryValues: seq<DefaultCommandCategoryType> :=
    [DefaultCommandCategoryType.Debug, DefaultCommandCategoryType.Normal, DefaultCommandCategoryType.Administration, DefaultCommandCategoryType.SuperAdministration, DefaultCommandCategoryType.System]

  lemma CategoryTable()
    ensures WellFormedTable(CategoryValues, CategoryName)
  {
    forall x: DefaultCommandCategoryType ensures x in CategoryValues {
      assert x.Debug? || x.Normal? || x.Administration? || x.SuperAdministration? || x.System?;
    }
    CategoryKeysShaped();
    CategoryKeysUnique();
  }

  /** Every name of the table is a constant key. */
  lemma CategoryKeysShaped()
    ensures forall k :: 0 <= k < |CategoryValues| ==> IsConstantKey(CategoryName(CategoryValues[k]))
  {
  }

  /** No two constants of the table share a name. */
  lemma CategoryKeysUnique()
    ensures KeysUnique(CategoryValues, CategoryName)
  {
  }

  /** `DefaultCommandCategoryType.fromString`, an instance method whose result does not depend on the receiver. */
  function CategoryFromString(value: Option<string>): (r: Result<DefaultCommandCategoryType, LookupError>)
    ensures r.Success? ==> value.Some? && EqualsIgnoreCase(CategoryName(r.value), value.value)
    ensures r == Failure(BlankArgument) <==> IsBlank(value)
  {
    Lookup(CategoryValues, CategoryName, value)
  }

  /** Any letter-case spelling of a constant's name finds that constant. */
  lemma CategoryFromStringName(x: DefaultCommandCategoryType, text: string)
    requires EqualsIgnoreCase(text, CategoryName(x))
    ensures CategoryFromString(Some(text)) == Success(x)
  {
    CategoryTable();
    LookupTableKey(CategoryValues, CategoryName, x, text);
  }

  /** The lookup raises exactly on a blank argument or an unknown name. */
  lemma CategoryFromStringFails(value: Option<string>)
    ensures CategoryFromString(value).Failure? <==>
      IsBlank(value) || forall x: DefaultCommandCategoryType :: !EqualsIgnoreCase(value.value, CategoryName(x))
  {
    CategoryTable();
    LookupTableFails(CategoryValues, CategoryName, value);
  }


  /** The prefix typed in front of a command of this category; NORMAL and
      ADMINISTRATION share `/`. */
  function CategoryPrefix(c: DefaultCommandCategoryType): string {
    match c
    case Debug => "*"
    case Normal => "/"
    case Administration => "/"
    case SuperAdministration => "%"
    case System => "."
  }

  /** `DefaultCommandCategoryType.fromPrefix`: the first constant, in
      declaration order, whose prefix equals the argument ignoring case. */
  function CategoryFromPrefix(prefix: Option<string>): (r: Result<DefaultCommandCategoryType, LookupError>)
    ensures r.Success? ==> prefix.Some? && EqualsIgnoreCase(CategoryPrefix(r.value), prefix.value)
    ensures r == Failure(BlankArgument) <==> IsBlank(prefix)
  {
    Lookup(CategoryValues, CategoryPrefix, prefix)
  }

  /** The prefix table read backwards: `/` gives NORMAL (declared before
      ADMINISTRATION), every other prefix gives its own category. */
  lemma CategoryFromPrefixOfPrefix(c: DefaultCommandCategoryType)
    ensures CategoryFromPrefix(Some(CategoryPrefix(c))) == Success(if c == Administration then Normal else c)
  {
    var p := CategoryPrefix(c);
    var i := if c == Debug then 0 else if c == Normal || c == Administration then 1
      else if c == SuperAdministration then 3 else 4;
    assert !IsBlank(Some(p));
    forall k | 0 <= k < i ensures !EqualsIgnoreCase(CategoryPrefix(CategoryValues[k]), p) {
      assert k == 0 || k == 1 || k == 2 || k == 3;
    }
    assert FirstMatchAt(CategoryValues, CategoryPrefix, p, i);
    LookupFirstAt(CategoryValues, CategoryPrefix, p, i);
  }

  /** A one-character key that is not an ASCII letter equals another string
      ignoring case only when it equals it exactly. */
  lemma SymbolEqualsIgnoreCase(p: string, t: string)
    requires |p| == 1 && !('A' <= p[0] <= 'Z') && !('a' <= p[0] <= 'z')
    ensures EqualsIgnoreCase(p, t) <==> t == p
  {
    EqualsIgnoreCaseAt(p, t);
    if |t| == 1 {
      assert t == [t[0]] && p == [p[0]];
    }
  }

  /** The prefixes that name a category are exactly `*`, `/`, `%` and `.`; any
      other non-blank text, `#` or a letter for instance, raises. */
  lemma CategoryFromPrefixFails(prefix: Option<string>)
    ensures CategoryFromPrefix(prefix).Failure? <==>
      IsBlank(prefix) || prefix.value !in {"*", "/", "%", "."}
  {
    if !IsBlank(prefix) {
      var t := prefix.value;
      forall k | 0 <= k < |CategoryValues|
        ensures EqualsIgnoreCase(CategoryPrefix(CategoryValues[k]), t) <==> t == CategoryPrefix(CategoryValues[k])
      {
        SymbolEqualsIgnoreCase(CategoryPrefix(CategoryValues[k]), t);
      }
      assert CategoryPrefix(CategoryValues[0]) == "*" && CategoryPrefix(CategoryValues[1]) == "/";
      assert CategoryPrefix(CategoryValues[3]) == "%" && CategoryPrefix(CategoryValues[4]) == ".";
    }
  }

  /** The group of a command. */
  datatype DefaultCommandGroupType = Chat | System

  function GroupName(x: DefaultCommandGroupType): string {
    match x
    case Chat => "CHAT"
    case System => "SYSTEM"
  }

  /** The constants of `DefaultCommandGroupType` in declaration order. */
  const GroupValues: seq<DefaultCommandGroupType> :=
    [DefaultCommandGroupType.Chat, DefaultCommandGroupType.System]

  lemma GroupTable()
    ensures WellFormedTable(GroupValues, GroupName)
  {
    forall x: DefaultCommandGroupType ensures x in GroupValues {
      assert x.Chat? || x.System?;
    }
    GroupKeysShaped();
    GroupKeysUnique();
  }

  /** Every name of the table is a constant key. */
  lemma GroupKeysShaped()
    ensures forall k :: 0 <= k < |GroupValues| ==> IsConstantKey(GroupName(GroupValues[k]))
  {
  }

  /** No two constants of the table share a name. */
  lemma GroupKeysUnique()
    ensures KeysUnique(GroupValues, GroupName)
  {
  }

  /** `DefaultCommandGroupType.fromString`. */
  function GroupFromString(value: Option<string>): (r: Result<DefaultCommandGroupType, LookupError>)
    ensures r.Success? ==> value.Some? && EqualsIgnoreCase(GroupName(r.value), value.value)
    ensures r == Failure(BlankArgument) <==> IsBlank(value)
  {
    Lookup(GroupValues, GroupName, value)
  }

  /** Any letter-case spelling of a constant's name finds that constant. */
  lemma GroupFromStringName(x: DefaultCommandGroupType, text: string)
    requires EqualsIgnoreCase(text, GroupName(x))
    ensures GroupFromString(Some(text)) == Success(x)
  {
    GroupTable();
    LookupTableKey(GroupValues, GroupName, x, text);
  }

  /** The lookup raises exactly on a blank argument or an unknown name. */
  lemma GroupFromStringFails(value: Option<string>)
    ensures GroupFromString(value).Failure? <==>
      IsBlank(value) || forall x: DefaultCommandGroupType :: !EqualsIgnoreCase(value.value, GroupName(x))
  {
    GroupTable();
    LookupTableFails(GroupValues, GroupName, value);
  }

  /** The domain of a command; APPLICATION is the only one. */
  datatype DefaultCommandDomainType = Application

  function DomainName(x: DefaultCommandDomainType): string {
    "APPLICATION"
  }

  /** The constants of `DefaultCommandDomainType` in declaration order. */
  const DomainValues: seq<DefaultCommandDomainType> := [DefaultCommandDomainType.Application]

  lemma DomainTable()
    ensures WellFormedTable(DomainValues, DomainName)
  {
    forall x: DefaultCommandDomainType ensures x in DomainValues {
      assert x.Application?;
    }
    DomainKeysShaped();
    DomainKeysUnique();
  }

  /** Every name of the table is a constant key. */
  lemma DomainKeysShaped()
    ensures forall k :: 0 <= k < |DomainValues| ==> IsConstantKey(DomainName(DomainValues[k]))
  {
  }

  /** No two constants of the table share a name. */
  lemma DomainKeysUnique()
    ensures KeysUnique(DomainValues, DomainName)
  {
  }

  /** `DefaultCommandDomainType.fromString`. */
  function DomainFromString(value: Option<string>): (r: Result<DefaultCommandDomainType, LookupError>)
    ensures r.Success? ==> value.Some? && EqualsIgnoreCase(DomainName(r.value), value.value)
    ensures r == Failure(BlankArgument) <==> IsBlank(value)
  {
    Lookup(DomainValues, DomainName, value)
  }

  /** Any letter-case spelling of a constant's name finds that constant. */
  lemma DomainFromStringName(x: DefaultCommandDomainType, text: string)
    requires EqualsIgnoreCase(text, DomainName(x))
    ensures DomainFromString(Some(text)) == Success(x)
  {
    DomainTable();
    LookupTableKey(DomainValues, DomainName, x, text);
  }

  /** The lookup raises exactly on a blank argument or an unknown name. */
  lemma DomainFromStringFails(value: Option<string>)
    ensures DomainFromString(value).Failure? <==>
      IsBlank(value) || forall x: DefaultCommandDomainType :: !EqualsIgnoreCase(value.value, DomainName(x))
  {
    DomainTable();
    LookupTableFails(DomainValues, DomainName, value);
  }


  /** The code of a command. */
  datatype DefaultCommandCodeType = DisplayTerminal | Afk | Who | RegisterUser | Quit

  function CodeName(x: DefaultCommandCodeType): string {
    match x
    case DisplayTerminal => "DISPLAY_TERMINAL"
    case Afk => "AFK"
    case Who => "WHO"
    case RegisterUser => "REGISTER_USER"
    case Quit => "QUIT"
  }

  /** The constants of `DefaultCommandCodeType` in declaration order. */
  const CodeValues: seq<DefaultCommandCodeType> :=
    [DefaultCommandCodeType.DisplayTerminal, DefaultCommandCodeType.Afk, DefaultCommandCodeType.Who, DefaultCommandCodeType.RegisterUser, DefaultCommandCodeType.Quit]

  lemma CodeTable()
    ensures WellFormedTable(CodeValues, CodeName)
  {
    forall x: DefaultCommandCodeType ensures x in CodeValues {
      assert x.DisplayTerminal? || x.Afk? || x.Who? || x.RegisterUser? || x.Quit?;
    }
    CodeKeysShaped();
    CodeKeysUnique();
  }

  /** Every name of the table is a constant key. */
  lemma CodeKeysShaped()
    ensures forall k :: 0 <= k < |CodeValues| ==> IsConstantKey(CodeName(CodeValues[k]))
  {
  }

  /** No two constants of the table share a name. */
  lemma CodeKeysUnique()
    ensures KeysUnique(CodeValues, CodeName)
  {
  }

  /** `DefaultCommandCodeType.fromString`. */
  function CodeFromString(value: Option<string>): (r: Result<DefaultCommandCodeType, LookupError>)
    ensures r.Success? ==> value.Some? && EqualsIgnoreCase(CodeName(r.value), value.value)
    ensures r == Failure(BlankArgument) <==> IsBlank(value)
  {
    Lookup(CodeValues, CodeName, value)
  }

  /** Any letter-case spelling of a constant's name finds that constant. */
  lemma CodeFromStringName(x: DefaultCommandCodeType, text: string)
    requires EqualsIgnoreCase(text, CodeName(x))
    ensures CodeFromString(Some(text)) == Success(x)
  {
    CodeTable();
    LookupTableKey(CodeValues, CodeName, x, text);
  }

  /** The lookup raises exactly on a blank argument or an unknown name. */
  lemma CodeFromStringFails(value: Option<string>)
    ensures CodeFromString(value).Failure? <==>
      IsBlank(value) || forall x: DefaultCommandCodeType :: !EqualsIgnoreCase(value.value, CodeName(x))
  {
    CodeTable();
    LookupTableFails(CodeValues, CodeName, value);
  }

  /** A command protocol: the identity under which a command definition is registered. */
  datatype DefaultCommandProtocol = Afk | Help | Quit

  function ProtocolName(x: DefaultCommandProtocol): string {
    match x
    case Afk => "AFK"
    case Help => "HELP"
    case Quit => "QUIT"
  }

  /** The constants of `DefaultCommandProtocol` in declaration order. */
  const ProtocolValues: seq<DefaultCommandProtocol> :=
    [DefaultCommandProtocol.Afk, DefaultCommandProtocol.Help, DefaultCommandProtocol.Quit]

  lemma ProtocolTable()
    ensures WellFormedTable(ProtocolValues, ProtocolName)
  {
    forall x: DefaultCommandProtocol ensures x in ProtocolValues {
      assert x.Afk? || x.Help? || x.Quit?;
    }
    ProtocolKeysShaped();
    ProtocolKeysUnique();
  }

  /** Every name of the table is a constant key. */
  lemma ProtocolKeysShaped()
    ensures forall k :: 0 <= k < |ProtocolValues| ==> IsConstantKey(ProtocolName(ProtocolValues[k]))
  {
  }

  /** No two constants of the table share a name. */
  lemma ProtocolKeysUnique()
    ensures KeysUnique(ProtocolValues, ProtocolName)
  {
  }

  /** `DefaultCommandProtocol.fromString`. */
  function ProtocolFromString(value: Option<string>): (r: Result<DefaultCommandProtocol, LookupError>)
    ensures r.Success? ==> value.Some? && EqualsIgnoreCase(ProtocolName(r.value), value.value)
    ensures r == Failure(BlankArgument) <==> IsBlank(value)
  {
    Lookup(ProtocolValues, ProtocolName, value)
  }

  /** Any letter-case spelling of a constant's name finds that constant. */
  lemma ProtocolFromStringName(x: DefaultCommandProtocol, text: string)
    requires EqualsIgnoreCase(text, ProtocolName(x))
    ensures ProtocolFromString(Some(text)) == Success(x)
  {
    ProtocolTable();
    LookupTableKey(ProtocolValues, ProtocolName, x, text);
  }

  /** The lookup raises exactly on a blank argument or an unknown name. */
  lemma ProtocolFromStringFails(value: Option<string>)
    ensures ProtocolFromString(value).Failure? <==>
      IsBlank(value) || forall x: DefaultCommandProtocol :: !EqualsIgnoreCase(value.value, ProtocolName(x))
  {
    ProtocolTable();
    LookupTableFails(ProtocolValues, ProtocolName, value);
  }


  function ProtocolCategory(p: DefaultCommandProtocol): DefaultCommandCategoryType {
    Normal
  }

  function ProtocolGroup(p: DefaultCommandProtocol): DefaultCommandGroupType {
    match p
    case Afk => DefaultCommandGroupType.Chat
    case Help => DefaultCommandGroupType.System
    case Quit => DefaultCommandGroupType.System
  }

  function ProtocolDomain(p: DefaultCommandProtocol): DefaultCommandDomainType {
    Application
  }

  /** Every default protocol is a NORMAL command of the APPLICATION domain, and
      AFK is the only CHAT one. */
  lemma ProtocolAttributes(p: DefaultCommandProtocol)
    ensures ProtocolCategory(p) == Normal && ProtocolDomain(p) == Application
    ensures ProtocolGroup(p) == DefaultCommandGroupType.Chat <==> p == DefaultCommandProtocol.Afk
  {
  }

  /** The type a parameter's raw text is converted to. */
  datatype ParameterType = String | Integer | Long | Boolean

  function ParameterTypeName(x: ParameterType): string {
    match x
    case String => "STRING"
    case Integer => "INTEGER"
    case Long => "LONG"
    case Boolean => "BOOLEAN"
  }

  /** The constants of `ParameterType` in declaration order. */
  const ParameterTypeValues: seq<ParameterType> :=
    [ParameterType.String, ParameterType.Integer, ParameterType.Long, ParameterType.Boolean]

  lemma ParameterTypeTable()
    ensures WellFormedTable(ParameterTypeValues, ParameterTypeName)
  {
    forall x: ParameterType ensures x in ParameterTypeValues {
      assert x.String? || x.Integer? || x.Long? || x.Boolean?;
    }
    ParameterTypeKeysShaped();
    ParameterTypeKeysUnique();
  }

  /** Every name of the table is a constant key. */
  lemma ParameterTypeKeysShaped()
    ensures forall k :: 0 <= k < |ParameterTypeValues| ==> IsConstantKey(ParameterTypeName(ParameterTypeValues[k]))
  {
  }

  /** No two constants of the table share a name. */
  lemma ParameterTypeKeysUnique()
    ensures KeysUnique(ParameterTypeValues, ParameterTypeName)
  {
  }

  /** `ParameterType.fromString`. */
  function ParameterTypeFromString(value: Option<string>): (r: Result<ParameterType, LookupError>)
    ensures r.Success? ==> value.Some? && EqualsIgnoreCase(ParameterTypeName(r.value), value.value)
    ensures r == Failure(BlankArgument) <==> IsBlank(value)
  {
    Lookup(ParameterTypeValues, ParameterTypeName, value)
  }

  /** Any letter-case spelling of a constant's name finds that constant. */
  lemma ParameterTypeFromStringName(x: ParameterType, text: string)
    requires EqualsIgnoreCase(text, ParameterTypeName(x))
    ensures ParameterTypeFromString(Some(text)) == Success(x)
  {
    ParameterTypeTable();
    LookupTableKey(ParameterTypeValues, ParameterTypeName, x, text);
  }

  /** The lookup raises exactly on a blank argument or an unknown name. */
  lemma ParameterTypeFromStringFails(value: Option<string>)
    ensures ParameterTypeFromString(value).Failure? <==>
      IsBlank(value) || forall x: ParameterType :: !EqualsIgnoreCase(value.value, ParameterTypeName(x))
  {
    ParameterTypeTable();
    LookupTableFails(ParameterTypeValues, ParameterTypeName, value);
  }


  /** `getType`: the Java class name of the converted value. */
  function JavaType(t: ParameterType): string {
    match t
    case String => "java.lang.String"
    case Integer => "java.lang.Integer"
    case Long => "java.lang.Long"
    case Boolean => "java.lang.Boolean"
  }

  /** `ParameterType.fromType`: like `fromString` but over class names and
      with case-sensitive `equals`. */
  function ParameterTypeFromType(value: Option<string>): (r: Result<ParameterType, LookupError>)
    ensures r.Success? ==> value.Some? && JavaType(r.value) == value.value
    ensures r == Failure(BlankArgument) <==> IsBlank(value)
  {
    LookupExact(ParameterTypeValues, JavaType, value)
  }

  /** `fromType(t.getType()) == t`. */
  lemma ParameterTypeFromTypeRoundTrip(t: ParameterType)
    ensures ParameterTypeFromType(Some(JavaType(t))) == Success(t)
  {
    ParameterTypeTable();
    assert t in ParameterTypeValues;
    assert KeysUnique(ParameterTypeValues, JavaType) by {}
    assert !IsBlank(Some(JavaType(t))) by {
      assert !IsTrimmable(JavaType(t)[0]);
      TrimEmptyIff(JavaType(t));
    }
    LookupExactKey(ParameterTypeValues, JavaType, t);
  }

  /** `fromType` is case-sensitive: an upper-cased class name raises. */
  lemma ParameterTypeFromTypeCaseSensitive()
    ensures ParameterTypeFromType(Some("JAVA.LANG.STRING")) == Failure(NoSuchConstant)
  {
    var u := "JAVA.LANG.STRING";
    assert !IsBlank(Some(u)) by {
      assert !IsTrimmable(u[0]);
      TrimEmptyIff(u);
    }
    forall k | 0 <= k < |ParameterTypeValues| ensures JavaType(ParameterTypeValues[k]) != u {
      assert JavaType(ParameterTypeValues[k])[0] == 'j';
    }
  }
}
