/** The closed lookup tables of the earlier `command/internal/type` package
    (the `protocol/CommandCategoryType` and `protocol/CommandProtocolType`
    files declare the same package): categories with prefixes, the eleven
    command groups, command codes, the six internal parameter types and the
    five command protocols of that generation. */
module LegacyTypes {
  import opened Outcomes
  import opened JavaText
  import opened EnumLookup
  import MessageTypes

  /** The category of a command of the earlier generation, typed as a one-character prefix. */
  datatype CommandCategoryType = Debug | Normal | Administration | SuperAdministration | System

  function CategoryName(x: CommandCategoryType): string {
    match x
    case Debug => "DEBUG"
    case Normal => "NORMAL"
    case Administration => "ADMINISTRATION"
    case SuperAdministration => "SUPER_ADMINISTRATION"
    case System => "SYSTEM"
  }

  /** The constants of `CommandCategoryType` in declaration order. */
  const CategoryValues: seq<CommandCategoryType> :=
    [CommandCategoryType.Debug, CommandCategoryType.Normal, CommandCategoryType.Administration, CommandCategoryType.SuperAdministration, CommandCategoryType.System]

  lemma CategoryTable()
    ensures WellFormedTable(CategoryValues, CategoryName)
  {
    forall x: CommandCategoryType ensures x in CategoryValues {
      assert x.Debug? || x.Normal? || x.Administration? || x.SuperAdministration? || x.System?;
    }
    CategoryKeysShaped();
    CategoryKeysUnique();
  }

  /** Every name of the table is a constant key. */
  lemma CategoryKeysShaped()
    ensures forall k :: 0 <= k < |CategoryValues| ==> IsConstantKey(CategoryName(CategoryValues[k]))
  {
  }

  /** No two constants of the table share a name. */
  lemma CategoryKeysUnique()
    ensures KeysUnique(CategoryValues, CategoryName)
  {
  }

  /** `CommandCategoryType.fromString` of `protocol/CommandCategoryType.java`. */
  function CategoryFromString(value: Option<string>): (r: Result<CommandCategoryType, LookupError>)
    ensures r.Success? ==> value.Some? && EqualsIgnoreCase(CategoryName(r.value), value.value)
    ensures r == Failure(BlankArgument) <==> IsBlank(value)
  {
    Lookup(CategoryValues, CategoryName, value)
  }

  /** Any letter-case spelling of a constant's name finds that constant. */
  lemma CategoryFromStringName(x: CommandCategoryType, text: string)
    requires EqualsIgnoreCase(text, CategoryName(x))
    ensures CategoryFromString(Some(text)) == Success(x)
  {
    CategoryTable();
    LookupTableKey(CategoryValues, CategoryName, x, text);
  }

  /** The lookup raises exactly on a blank argument or an unknown name. */
  lemma CategoryFromStringFails(value: Option<string>)
    ensures CategoryFromString(value).Failure? <==>
      IsBlank(value) || forall x: CommandCategoryType :: !EqualsIgnoreCase(value.value, CategoryName(x))
  {
    CategoryTable();
    LookupTableFails(CategoryValues, CategoryName, value);
  }


  /** The prefix table, identical to the newer one: NORMAL and ADMINISTRATION
      share `/`. */
  function CategoryPrefix(c: CommandCategoryType): string {
    match c
    case Debug => "*"
    case Normal => "/"
    case Administration => "/"
    case SuperAdministration => "%"
    case System => "."
  }

  /** `CommandCategoryType.fromPrefix`: the first constant, in declaration
      order, whose prefix equals the argument ignoring case. */
  function CategoryFromPrefix(prefix: Option<string>): (r: Result<CommandCategoryType, LookupError>)
    ensures r.Success? ==> prefix.Some? && EqualsIgnoreCase(CategoryPrefix(r.value), prefix.value)
    ensures r == Failure(BlankArgument) <==> IsBlank(prefix)
  {
    Lookup(CategoryValues, CategoryPrefix, prefix)
  }

  /** The instance method `from` of `internal/type/CommandCategoryType.java`:
      the receiver plays no part. */
  function CategoryFrom(receiver: CommandCategoryType, value: Option<string>): (r: Result<CommandCategoryType, LookupError>)
    ensures r.Success? ==> value.Some? && EqualsIgnoreCase(CategoryName(r.value), value.value)
    ensures r == Failure(BlankArgument) <==> IsBlank(value)
  {
    Lookup(CategoryValues, CategoryName, value)
  }

  /** The instance method `fromPrefix` of `internal/type/CommandCategoryType.java`:
      the receiver plays no part. */
  function CategoryFromPrefixOf(receiver: CommandCategoryType, prefix: Option<string>): (r: Result<CommandCategoryType, LookupError>)
    ensures r.Success? ==> prefix.Some? && EqualsIgnoreCase(CategoryPrefix(r.value), prefix.value)
    ensures r == Failure(BlankArgument) <==> IsBlank(prefix)
  {
    Lookup(CategoryValues, CategoryPrefix, prefix)
  }

  /** Whatever the receiver, `from` finds a category by any letter-case
      spelling of its name, and raises exactly on blank or unknown names. */
  lemma CategoryFromAnyReceiver(receiver: CommandCategoryType, c: CommandCategoryType, value: Option<string>)
    ensures value.Some? && EqualsIgnoreCase(value.value, CategoryName(c)) ==> CategoryFrom(receiver, value) == Success(c)
    ensures CategoryFrom(receiver, value).Failure? <==>
      IsBlank(value) || forall x: CommandCategoryType :: !EqualsIgnoreCase(value.value, CategoryName(x))
  {
    if value.Some? && EqualsIgnoreCase(value.value, CategoryName(c)) {
      CategoryFromStringName(c, value.value);
    }
    CategoryFromStringFails(value);
  }

  /** The prefix table read backwards, whatever the receiver: `/` gives NORMAL,
      every other prefix gives its own category. */
  lemma CategoryFromPrefixOfPrefix(receiver: CommandCategoryType, c: CommandCategoryType)
    ensures CategoryFromPrefix(Some(CategoryPrefix(c))) == Success(if c == Administration then Normal else c)
    ensures CategoryFromPrefixOf(receiver, Some(CategoryPrefix(c))) == Success(if c == Administration then Normal else c)
  {
    var p := CategoryPrefix(c);
    var i := if c == Debug then 0 else if c == Normal || c == Administration then 1
      else if c == SuperAdministration then 3 else 4;
    assert !IsBlank(Some(p));
    forall k | 0 <= k < i ensures !EqualsIgnoreCase(CategoryPrefix(CategoryValues[k]), p) {
      assert k == 0 || k == 1 || k == 2 || k == 3;
    }
    assert FirstMatchAt(CategoryValues, CategoryPrefix, p, i);
    LookupFirstAt(CategoryValues, CategoryPrefix, p, i);
  }

  /** The eleven command groups of the earlier generation. */
  datatype CommandGroupType = Chat | Pvp | Character | Emote | Guild | Combat | Party | Raid | Pet | System | Targeting

  function GroupName(x: CommandGroupType): string {
    match x
    case Chat => "CHAT"
    case Pvp => "PVP"
    case Character => "CHARACTER"
    case Emote => "EMOTE"
    case Guild => "GUILD"
    case Combat => "COMBAT"
    case Party => "PARTY"
    case Raid => "RAID"
    case Pet => "PET"
    case System => "SYSTEM"
    case Targeting => "TARGETING"
  }

  /** The constants of `CommandGroupType` in declaration order. */
  const GroupValues: seq<CommandGroupType> :=
    [CommandGroupType.Chat, CommandGroupType.Pvp, CommandGroupType.Character, CommandGroupType.Emote, CommandGroupType.Guild, CommandGroupType.Combat, CommandGroupType.Party, CommandGroupType.Raid, CommandGroupType.Pet, CommandGroupType.System, CommandGroupType.Targeting]

  lemma GroupTable()
    ensures WellFormedTable(GroupValues, GroupName)
  {
    forall x: CommandGroupType ensures x in GroupValues {
      assert x.Chat? || x.Pvp? || x.Character? || x.Emote? || x.Guild? || x.Combat? || x.Party? || x.Raid? || x.Pet? || x.System? || x.Targeting?;
    }
    GroupKeysShaped();
    GroupKeysUnique();
  }

  /** Every name of the table is a constant key. */
  lemma GroupKeysShaped()
    ensures forall k :: 0 <= k < |GroupValues| ==> IsConstantKey(GroupName(GroupValues[k]))
  {
  }

  /** No two constants of the table share a name. */
  lemma GroupKeysUnique()
    ensures KeysUnique(GroupValues, GroupName)
  {
  }

  /** The static `CommandGroupType.fromString`. */
  function GroupFromString(value: Option<string>): (r: Result<CommandGroupType, LookupError>)
    ensures r.Success? ==> value.Some? && EqualsIgnoreCase(GroupName(r.value), value.value)
    ensures r == Failure(BlankArgument) <==> IsBlank(value)
  {
    Lookup(GroupValues, GroupName, value)
  }

  /** Any letter-case spelling of a constant's name finds that constant. */
  lemma GroupFromStringName(x: CommandGroupType, text: string)
    requires EqualsIgnoreCase(text, GroupName(x))
    ensures GroupFromString(Some(text)) == Success(x)
  {
    GroupTable();
    LookupTableKey(GroupValues, GroupName, x, text);
  }

  /** The lookup raises exactly on a blank argument or an unknown name. */
  lemma GroupFromStringFails(value: Option<string>)
    ensures GroupFromString(value).Failure? <==>
      IsBlank(value) || forall x: CommandGroupType :: !EqualsIgnoreCase(value.value, GroupName(x))
  {
    GroupTable();
    LookupTableFails(GroupValues, GroupName, value);
  }

  /** The command codes of the earlier generation. */
  datatype CommandCodeType = DisplayTerminal | Quit

  function CodeName(x: CommandCodeType): string {
    match x
    case DisplayTerminal => "DISPLAY_TERMINAL"
    case Quit => "QUIT"
  }

  /** The constants of `CommandCodeType` in declaration order. */
  const CodeValues: seq<CommandCodeType> := [CommandCodeType.DisplayTerminal, CommandCodeType.Quit]

  lemma CodeTable()
    ensures WellFormedTable(CodeValues, CodeName)
  {
    forall x: CommandCodeType ensures x in CodeValues {
      assert x.DisplayTerminal? || x.Quit?;
    }
    CodeKeysShaped();
    CodeKeysUnique();
  }

  /** Every name of the table is a constant key. */
  lemma CodeKeysShaped()
    ensures forall k :: 0 <= k < |CodeValues| ==> IsConstantKey(CodeName(CodeValues[k]))
  {
  }

  /** No two constants of the table share a name. */
  lemma CodeKeysUnique()
    ensures KeysUnique(CodeValues, CodeName)
  {
  }

  /** The static `CommandCodeType.fromString`. */
  function CodeFromString(value: Option<string>): (r: Result<CommandCodeType, LookupError>)
    ensures r.Success? ==> value.Some? && EqualsIgnoreCase(CodeName(r.value), value.value)
    ensures r == Failure(BlankArgument) <==> IsBlank(value)
  {
    Lookup(CodeValues, CodeName, value)
  }

  /** Any letter-case spelling of a constant's name finds that constant. */
  lemma CodeFromStringName(x: CommandCodeType, text: string)
    requires EqualsIgnoreCase(text, CodeName(x))
    ensures CodeFromString(Some(text)) == Success(x)
  {
    CodeTable();
    LookupTableKey(CodeValues, CodeName, x, text);
  }

  /** The lookup raises exactly on a blank argument or an unknown name. */
  lemma CodeFromStringFails(value: Option<string>)
    ensures CodeFromString(value).Failure? <==>
      IsBlank(value) || forall x: CommandCodeType :: !EqualsIgnoreCase(value.value, CodeName(x))
  {
    CodeTable();
    LookupTableFails(CodeValues, CodeName, value);
  }

  /** The six parameter types of the earlier generation. */
  datatype ParameterType = ReservedForInternalUsage | String | Integer | Long | Boolean | Object

  function ParameterTypeName(x: ParameterType): string {
    match x
    case ReservedForInternalUsage => "RESERVED_FOR_INTERNAL_USAGE"
    case String => "STRING"
    case Integer => "INTEGER"
    case Long => "LONG"
    case Boolean => "BOOLEAN"
    case Object => "OBJECT"
  }

  /** The constants of `ParameterType` in declaration order. */
  const ParameterTypeValues: seq<ParameterType> :=
    [ParameterType.ReservedForInternalUsage, ParameterType.String, ParameterType.Integer, ParameterType.Long, ParameterType.Boolean, ParameterType.Object]

  lemma ParameterTypeTable()
    ensures WellFormedTable(ParameterTypeValues, ParameterTypeName)
  {
    forall x: ParameterType ensures x in ParameterTypeValues {
      assert x.ReservedForInternalUsage? || x.String? || x.Integer? || x.Long? || x.Boolean? || x.Object?;
    }
    ParameterTypeKeysShaped();
    ParameterTypeKeysUnique();
  }

  /** Every name of the table is a constant key. */
  lemma ParameterTypeKeysShaped()
    ensures forall k :: 0 <= k < |ParameterTypeValues| ==> IsConstantKey(ParameterTypeName(ParameterTypeValues[k]))
  {
  }

  /** No two constants of the table share a name. */
  lemma ParameterTypeKeysUnique()
    ensures KeysUnique(ParameterTypeValues, ParameterTypeName)
  {
  }

  /** The lookup behind the instance method `ParameterType.from`. */
  function ParameterTypeFromString(value: Option<string>): (r: Result<ParameterType, LookupError>)
    ensures r.Success? ==> value.Some? && EqualsIgnoreCase(ParameterTypeName(r.value), value.value)
    ensures r == Failure(BlankArgument) <==> IsBlank(value)
  {
    Lookup(ParameterTypeValues, ParameterTypeName, value)
  }

  /** Any letter-case spelling of a constant's name finds that constant. */
  lemma ParameterTypeFromStringName(x: ParameterType, text: string)
    requires EqualsIgnoreCase(text, ParameterTypeName(x))
    ensures ParameterTypeFromString(Some(text)) == Success(x)
  {
    ParameterTypeTable();
    LookupTableKey(ParameterTypeValues, ParameterTypeName, x, text);
  }

  /** The lookup raises exactly on a blank argument or an unknown name. */
  lemma ParameterTypeFromStringFails(value: Option<string>)
    ensures ParameterTypeFromString(value).Failure? <==>
      IsBlank(value) || forall x: ParameterType :: !EqualsIgnoreCase(value.value, ParameterTypeName(x))
  {
    ParameterTypeTable();
    LookupTableFails(ParameterTypeValues, ParameterTypeName, value);
  }


  /** `getType`: a Java class name, or "reserved". */
  function JavaType(t: ParameterType): string {
    match t
    case ReservedForInternalUsage => "reserved"
    case String => "java.lang.String"
    case Integer => "java.lang.Integer"
    case Long => "java.lang.Long"
    case Boolean => "java.lang.Boolean"
    case Object => "java.lang.Object"
  }

  /** The instance method `from`: the receiver plays no part. */
  function ParameterTypeFrom(receiver: ParameterType, value: Option<string>): (r: Result<ParameterType, LookupError>)
    ensures r.Success? ==> value.Some? && EqualsIgnoreCase(ParameterTypeName(r.value), value.value)
    ensures r == Failure(BlankArgument) <==> IsBlank(value)
  {
    ParameterTypeFromString(value)
  }

  /** Whatever the receiver, `from(c.name())` is `c` in any letter case, and
      blank or unknown names raise. */
  lemma ParameterTypeFromAnyReceiver(receiver: ParameterType, c: ParameterType, value: Option<string>)
    ensures value.Some? && EqualsIgnoreCase(value.value, ParameterTypeName(c)) ==> ParameterTypeFrom(receiver, value) == Success(c)
    ensures ParameterTypeFrom(receiver, value).Failure? <==>
      IsBlank(value) || forall x: ParameterType :: !EqualsIgnoreCase(value.value, ParameterTypeName(x))
  {
    if value.Some? && EqualsIgnoreCase(value.value, ParameterTypeName(c)) {
      ParameterTypeFromStringName(c, value.value);
    }
    ParameterTypeFromStringFails(value);
  }

  /** The command protocols of the earlier generation. */
  datatype CommandProtocolType = Afk | ServerTime | ClientTime | Help | Quit

  function ProtocolName(x: CommandProtocolType): string {
    match x
    case Afk => "AFK"
    case ServerTime => "SERVER_TIME"
    case ClientTime => "CLIENT_TIME"
    case Help => "HELP"
    case Quit => "QUIT"
  }

  /** The constants of `CommandProtocolType` in declaration order. */
  const ProtocolValues: seq<CommandProtocolType> :=
    [CommandProtocolType.Afk, CommandProtocolType.ServerTime, CommandProtocolType.ClientTime, CommandProtocolType.Help, CommandProtocolType.Quit]

  lemma ProtocolTable()
    ensures WellFormedTable(ProtocolValues, ProtocolName)
  {
    forall x: CommandProtocolType ensures x in ProtocolValues {
      assert x.Afk? || x.ServerTime? || x.ClientTime? || x.Help? || x.Quit?;
    }
    ProtocolKeysShaped();
    ProtocolKeysUnique();
  }

  /** Every name of the table is a constant key. */
  lemma ProtocolKeysShaped()
    ensures forall k :: 0 <= k < |ProtocolValues| ==> IsConstantKey(ProtocolName(ProtocolValues[k]))
  {
  }

  /** No two constants of the table share a name. */
  lemma ProtocolKeysUnique()
    ensures KeysUnique(ProtocolValues, ProtocolName)
  {
  }

  /** `CommandProtocolType.fromString`, an instance method whose result does not depend on the receiver. */
  function ProtocolFromString(value: Option<string>): (r: Result<CommandProtocolType, LookupError>)
    ensures r.Success? ==> value.Some? && EqualsIgnoreCase(ProtocolName(r.value), value.value)
    ensures r == Failure(BlankArgument) <==> IsBlank(value)
  {
    Lookup(ProtocolValues, ProtocolName, value)
  }

  /** Any letter-case spelling of a constant's name finds that constant. */
  lemma ProtocolFromStringName(x: CommandProtocolType, text: string)
    requires EqualsIgnoreCase(text, ProtocolName(x))
    ensures ProtocolFromString(Some(text)) == Success(x)
  {
    ProtocolTable();
    LookupTableKey(ProtocolValues, ProtocolName, x, text);
  }

  /** The lookup raises exactly on a blank argument or an unknown name. */
  lemma ProtocolFromStringFails(value: Option<string>)
    ensures ProtocolFromString(value).Failure? <==>
      IsBlank(value) || forall x: CommandProtocolType :: !EqualsIgnoreCase(value.value, ProtocolName(x))
  {
    ProtocolTable();
    LookupTableFails(ProtocolValues, ProtocolName, value);
  }


  function ProtocolCategory(p: CommandProtocolType): CommandCategoryType {
    Normal
  }

  function ProtocolGroup(p: CommandProtocolType): CommandGroupType {
    if p == CommandProtocolType.Afk then CommandGroupType.Chat else CommandGroupType.System
  }

  /** The message type a protocol sends. The constants are named in the source
      through a test enum that does not declare SERVER_TIME's or NONE; the
      message-type enum that does declare all three names is used here. */
  function ProtocolMessage(p: CommandProtocolType): MessageTypes.DefaultMessageType {
    match p
    case Afk => MessageTypes.DefaultMessageType.StatusAfk
    case ServerTime => MessageTypes.DefaultMessageType.QueryServerTime
    case ClientTime => MessageTypes.DefaultMessageType.NoMessage
    case Help => MessageTypes.DefaultMessageType.NoMessage
    case Quit => MessageTypes.DefaultMessageType.NoMessage
  }

  /** All five protocols are NORMAL commands; AFK is the only CHAT one. */
  lemma ProtocolAttributes(p: CommandProtocolType)
    ensures ProtocolCategory(p) == Normal
    ensures ProtocolGroup(p) == CommandGroupType.Chat <==> p == CommandProtocolType.Afk
    ensures ProtocolGroup(p) == CommandGroupType.System <==> p != CommandProtocolType.Afk
  {
  }
}
