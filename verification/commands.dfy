/** The value objects of the newer command package: parameter definitions,
    command definitions, parsed parameters and parsed commands. A Java list
    field that may still be null is an `Option<seq<_>>`; an accessor that
    dereferences it reports `NullPointer`. */
module Commands {
  import opened Outcomes
  import opened JavaText
  import opened Lists
  import opened JavaNumbers
  import opened ProtocolTypes

  /** `NullPointerException`, raised by iterating a list that is still null. */
  datatype NullPointer = NullPointer

  /** A parameter definition (`CommandParameterMetadata`). */
  datatype ParameterMetadata = ParameterMetadata(
    name: string,
    description: string,
    fullProtocolName: Option<string>,
    protocol: Option<DefaultCommandProtocol>,
    tag: string,
    regExp: Option<string>,
    kind: Option<ParameterType>,
    examples: Option<seq<string>>)

  /** The constructor: name, description and tag are stored; the protocol name
      is still unset when `initialize` runs, so no protocol is resolved. */
  function NewParameterMetadata(name: string, description: string, tag: string): (m: ParameterMetadata)
    ensures m.name == name && m.description == description && m.tag == tag
    ensures m.fullProtocolName.None? && m.protocol.None? && m.examples.None?
  {
    ParameterMetadata(name, description, None, None, tag, None, None, None)
  }

  /** `addExample`: the list is created on first use and the example goes last. */
  function AddExample(m: ParameterMetadata, example: string): (r: ParameterMetadata)
    ensures r.examples.Some? && r.examples.value == m.examples.GetOr([]) + [example]
    ensures r.(examples := m.examples) == m
  {
    m.(examples := Append(m.examples, example))
  }

  /** Finds the protocol constant named by a class name and a constant name: the
      reflective `Class.forName(...).getEnumConstants()[0].fromString(...)`.
      `None` stands for any exception on the way. */
  type ProtocolResolver = (string, string) -> Option<DefaultCommandProtocol>

  /** The class name under which the default protocol enum is found. */
  const DefaultProtocolClass: string := "com.heliosphere.athena.base.command.protocol.DefaultCommandProtocol"

  /** The resolver for the one protocol enum of this package. */
  function DefaultResolver(className: string, constant: string): Option<DefaultCommandProtocol> {
    if className == DefaultProtocolClass then
      match ProtocolFromString(Some(constant))
      case Success(p) => Some(p)
      case Failure(_) => None
    else None
  }

  /** `CommandInitializationException`. */
  datatype InitializationError = UnableToInitialize(name: string)

  /** Splits a full protocol name at its last `.`. */
  function SplitProtocolName(full: string): (r: Option<(string, string)>)
    ensures r.None? <==> '.' !in full
    ensures r.Some? ==> r.value.0 + "." + r.value.1 == full && '.' !in r.value.1
  {
    match LastIndexOf(full, '.')
    case None => None
    case Some(i) =>
      assert full[..i] + "." + full[i + 1..] == full by {
        assert full == full[..i] + [full[i]] + full[i + 1..];
      }
      Some((full[..i], full[i + 1..]))
  }

  /** `setProtocol(fullProtocolName)`: a null or empty name, or one without a
      dot, changes nothing; otherwise the protocol is resolved from the split
      name, and any failure raises `CommandInitializationException`. */
  function SetProtocol(m: ParameterMetadata, full: Option<string>, resolve: ProtocolResolver): (r: Result<ParameterMetadata, InitializationError>)
    ensures (full.None? || |full.value| == 0 || '.' !in full.value) ==> r == Success(m)
    ensures r.Success? ==> r.value.(protocol := m.protocol) == m
    ensures r.Success? && r.value != m ==>
      exists c, v :: c + "." + v == full.value && '.' !in v && r.value.protocol == resolve(c, v)
    ensures r.Failure? ==> r.error.name == m.name && full.Some? && '.' in full.value
    ensures full.Some? && SplitProtocolName(full.value).Some? ==>
      var (c, v) := SplitProtocolName(full.value).value;
      (r.Failure? <==> resolve(c, v).None?) && (r.Success? ==> r.value == m.(protocol := resolve(c, v)))
  {
    if full.None? || |full.value| == 0 then Success(m)
    else
      match SplitProtocolName(full.value)
      case None => Success(m)
      case Some((c, v)) =>
        match resolve(c, v)
        case None => Failure(UnableToInitialize(m.name))
        case Some(p) => Success(m.(protocol := Some(p)))
  }

  /** `initialize`: `setProtocol` applied to the stored protocol name. */
  function Initialize(m: ParameterMetadata, resolve: ProtocolResolver): (r: Result<ParameterMetadata, InitializationError>)
    ensures m.fullProtocolName.None? ==> r == Success(m)
    ensures r.Success? ==> r.value.(protocol := m.protocol) == m
  {
    SetProtocol(m, m.fullProtocolName, resolve)
  }

  /** Naming a default protocol constant by its class and name, in any letter
      case, resolves to that constant, and nothing else about the definition
      changes. */
  lemma SetProtocolDefault(m: ParameterMetadata, p: DefaultCommandProtocol, spelling: string)
    requires EqualsIgnoreCase(spelling, ProtocolName(p)) && '.' !in spelling
    ensures SetProtocol(m, Some(DefaultProtocolClass + "." + spelling), DefaultResolver)
      == Success(m.(protocol := Some(p)))
  {
    var full := DefaultProtocolClass + "." + spelling;
    var n := |DefaultProtocolClass|;
    assert full[n] == '.';
    assert full[n + 1..] == spelling;
    var j := LastIndexOf(full, '.').value;
    assert j == n;
    assert full[..n] == DefaultProtocolClass;
    ProtocolFromStringName(p, spelling);
  }

  /** A command definition (`CommandMetadata`). `protocol` is the command-level
      protocol the interpreter reads through `getProtocolType`. */
  datatype CommandMetadata = CommandMetadata(
    category: string,
    group: string,
    code: string,
    message: string,
    name: string,
    protocol: Option<DefaultCommandProtocol>,
    aliases: Option<seq<string>>,
    parameters: Option<seq<ParameterMetadata>>)

  /** The constructor stores the five strings; everything else is unset. */
  function NewCommandMetadata(category: string, group: string, code: string, message: string, name: string): (m: CommandMetadata)
    ensures m.category == category && m.group == group && m.code == code
    ensures m.message == message && m.name == name
    ensures m.protocol.None? && m.aliases.None? && m.parameters.None?
  {
    CommandMetadata(category, group, code, message, name, None, None, None)
  }

  /** `addParameter`: the list is created on first use and the parameter goes
      last, after the earlier ones. */
  function AddParameter(m: CommandMetadata, p: ParameterMetadata): (r: CommandMetadata)
    ensures r.parameters.Some? && r.parameters.value == m.parameters.GetOr([]) + [p]
    ensures r.(parameters := m.parameters) == m
  {
    m.(parameters := Append(m.parameters, p))
  }

  /** `getByName`: the first parameter with exactly that name. */
  function GetByName(m: CommandMetadata, name: string): (r: Result<Option<ParameterMetadata>, NullPointer>)
    ensures r.Failure? <==> m.parameters.None?
    ensures r.Success? && r.value.Some? ==>
      exists i :: 0 <= i < |m.parameters.value| && m.parameters.value[i] == r.value.value
        && r.value.value.name == name
        && forall k :: 0 <= k < i ==> m.parameters.value[k].name != name
    ensures r == Success(None) <==>
      m.parameters.Some? && forall k :: 0 <= k < |m.parameters.value| ==> m.parameters.value[k].name != name
  {
    match m.parameters
    case None => Failure(NullPointer)
    case Some(ps) => Success(FirstWhere(ps, (p: ParameterMetadata) => p.name == name))
  }

  /** `getByTag`: the first parameter with exactly that tag. */
  function GetByTag(m: CommandMetadata, tag: string): (r: Result<Option<ParameterMetadata>, NullPointer>)
    ensures r.Failure? <==> m.parameters.None?
    ensures r.Success? && r.value.Some? ==>
      exists i :: 0 <= i < |m.parameters.value| && m.parameters.value[i] == r.value.value
        && r.value.value.tag == tag
        && forall k :: 0 <= k < i ==> m.parameters.value[k].tag != tag
    ensures r == Success(None) <==>
      m.parameters.Some? && forall k :: 0 <= k < |m.parameters.value| ==> m.parameters.value[k].tag != tag
  {
    match m.parameters
    case None => Failure(NullPointer)
    case Some(ps) => Success(FirstWhere(ps, (p: ParameterMetadata) => p.tag == tag))
  }

  /** A parameter added under a fresh name is found by that name, and one added
      under a fresh tag is found by that tag; earlier parameters keep winning
      for their own names. */
  lemma AddThenGet(m: CommandMetadata, p: ParameterMetadata)
    requires m.parameters.Some? ==> forall k :: 0 <= k < |m.parameters.value| ==> m.parameters.value[k].name != p.name
    ensures GetByName(AddParameter(m, p), p.name) == Success(Some(p))
    ensures m.parameters.Some? ==> forall name :: GetByName(m, name).value.Some? ==>
      GetByName(AddParameter(m, p), name) == GetByName(m, name)
  {
    var ps := AddParameter(m, p).parameters.value;
    var r := GetByName(AddParameter(m, p), p.name);
    var i :| 0 <= i < |ps| && ps[i] == r.value.value && r.value.value.name == p.name
      && forall k :: 0 <= k < i ==> ps[k].name != p.name;
    assert i == |ps| - 1;
    if m.parameters.Some? {
      forall name | GetByName(m, name).value.Some?
        ensures GetByName(AddParameter(m, p), name) == GetByName(m, name)
      {
        AddKeepsEarlier(m, p, name);
      }
    }
  }

  lemma AddKeepsEarlier(m: CommandMetadata, p: ParameterMetadata, name: string)
    requires m.parameters.Some? && GetByName(m, name).Success? && GetByName(m, name).value.Some?
    ensures GetByName(AddParameter(m, p), name) == GetByName(m, name)
  {
    var ps := AddParameter(m, p).parameters.value;
    var prior := m.parameters.value;
    var q := GetByName(m, name).value.value;
    var j :| 0 <= j < |prior| && prior[j] == q && q.name == name && forall k :: 0 <= k < j ==> prior[k].name != name;
    var s := GetByName(AddParameter(m, p), name);
    assert ps[j] == q;
    assert s.value.Some?;
    var j' :| 0 <= j' < |ps| && ps[j'] == s.value.value && s.value.value.name == name
      && forall k :: 0 <= k < j' ==> ps[k].name != name;
    assert j' == j;
  }

  /** A parameter's value, as the Java `Object` field holds it. */
  datatype Value = Null | Text(text: string) | IntValue(i: Int32) | LongValue(l: Int64) | BoolValue(b: bool)

  /** The unchecked exceptions the three-argument constructor lets through:
      `NumberFormatException` from the numeric conversions, and a
      `NullPointerException` when the definition has no type to switch on. */
  datatype CoercionError = BadNumber | NoType

  /** A parsed parameter (`CommandParameter`). */
  datatype CommandParameter = CommandParameter(text: string, metadata: ParameterMetadata, value: Value)

  /** The two-argument constructor: no value. */
  function NewParameter(text: string, metadata: ParameterMetadata): (r: CommandParameter)
    ensures r.text == text && r.metadata == metadata && r.value == Null
  {
    CommandParameter(text, metadata, Null)
  }

  /** The value stored for `raw` under a parameter type. */
  function Coerce(kind: ParameterType, raw: Option<string>): (r: Result<Value, CoercionError>)
    ensures kind == Integer ==> (r.Success? <==> IntegerValueOf(raw).Success?)
    ensures kind == Integer && r.Success? ==> r.value == IntValue(IntegerValueOf(raw).value)
    ensures kind == ParameterType.Long ==> (r.Success? <==> LongValueOf(raw).Success?)
    ensures kind == ParameterType.Long && r.Success? ==> r.value == LongValue(LongValueOf(raw).value)
    ensures kind == Boolean ==> r == Success(BoolValue(raw.Some? && EqualsIgnoreCase(raw.value, "true")))
    ensures kind == String ==> r == Success(if raw.None? then Null else Text(raw.value))
  {
    match kind
    case Integer =>
      (match IntegerValueOf(raw)
       case Success(v) => Success(IntValue(v))
       case Failure(_) => Failure(BadNumber))
    case Boolean => Success(BoolValue(BooleanValueOf(raw)))
    case Long =>
      (match LongValueOf(raw)
       case Success(v) => Success(LongValue(v))
       case Failure(_) => Failure(BadNumber))
    case String => Success(if raw.None? then Null else Text(raw.value))
  }

  /** The three-argument constructor: text and definition are stored as given
      and the raw value is converted according to the definition's type. */
  function NewParameterWithValue(text: string, metadata: ParameterMetadata, raw: Option<string>): (r: Result<CommandParameter, CoercionError>)
    ensures metadata.kind.None? ==> r == Failure(NoType)
    ensures r.Success? ==> r.value.text == text && r.value.metadata == metadata
    ensures r.Success? ==> metadata.kind.Some? && Coerce(metadata.kind.value, raw) == Success(r.value.value)
    ensures metadata.kind.Some? && Coerce(metadata.kind.value, raw).Success? ==> r.Success?
  {
    match metadata.kind
    case None => Failure(NoType)
    case Some(k) =>
      match Coerce(k, raw)
      case Success(v) => Success(CommandParameter(text, metadata, v))
      case Failure(e) => Failure(e)
  }

  /** What each type makes of a raw text: integers and longs read back their
      own rendering, a boolean never fails, and a string is stored unchanged. */
  lemma CoercionRoundTrip(m: ParameterMetadata, i: Int32, l: Int64, raw: Option<string>)
    ensures m.kind == Some(Integer) ==> NewParameterWithValue("", m, Some(Render(i))) == Success(CommandParameter("", m, IntValue(i)))
    ensures m.kind == Some(ParameterType.Long) ==> NewParameterWithValue("", m, Some(Render(l))) == Success(CommandParameter("", m, LongValue(l)))
    ensures m.kind == Some(Boolean) ==> NewParameterWithValue("", m, raw).Success?
    ensures m.kind == Some(String) && raw.Some? ==> NewParameterWithValue("", m, raw) == Success(CommandParameter("", m, Text(raw.value)))
    ensures m.kind == Some(Integer) && raw.None? ==> NewParameterWithValue("", m, raw) == Failure(BadNumber)
  {
    ValueOfRoundTrip(i, l);
  }

  /** `setMetadata` replaces the definition and nothing else. */
  function SetParameterMetadata(p: CommandParameter, metadata: ParameterMetadata): (r: CommandParameter)
    ensures r.metadata == metadata && r.text == p.text && r.value == p.value
  {
    p.(metadata := metadata)
  }

  /** A parsed command. The interpreter builds it from a protocol and the
      original text. */
  datatype Command = Command(
    protocol: Option<DefaultCommandProtocol>,
    text: string,
    metadata: Option<CommandMetadata>,
    parameters: Option<seq<CommandParameter>>)

  function NewCommand(protocol: Option<DefaultCommandProtocol>, text: string): (c: Command)
    ensures c.protocol == protocol && c.text == text && c.metadata.None? && c.parameters.None?
  {
    Command(protocol, text, None, None)
  }

  /** `setMetadata` replaces the definition and nothing else. */
  function SetMetadata(c: Command, metadata: Option<CommandMetadata>): (r: Command)
    ensures r.metadata == metadata && r.(metadata := c.metadata) == c
  {
    c.(metadata := metadata)
  }

  /** `addParameter`: created on first use, appended at the end. */
  function AddCommandParameter(c: Command, p: CommandParameter): (r: Command)
    ensures r.parameters.Some? && r.parameters.value == c.parameters.GetOr([]) + [p]
    ensures r.(parameters := c.parameters) == c
  {
    c.(parameters := Append(c.parameters, p))
  }

  /** `addParameter` applied to each element of `ps` in turn. */
  function AddCommandParameters(c: Command, ps: seq<CommandParameter>): (r: Command)
    ensures r.(parameters := c.parameters) == c
    ensures |ps| == 0 ==> r == c
    ensures |ps| > 0 ==> r.parameters == Some(c.parameters.GetOr([]) + ps)
    decreases |ps|
  {
    if |ps| == 0 then c
    else
      var first := AddCommandParameter(c, ps[0]);
      var r := AddCommandParameters(first, ps[1..]);
      assert first.parameters.GetOr([]) + ps[1..] == c.parameters.GetOr([]) + ps by {
        assert ps == [ps[0]] + ps[1..];
      }
      assert |ps| == 1 ==> first.parameters.GetOr([]) == c.parameters.GetOr([]) + ps;
      r
  }

  /** `getParameter(name)`: the first parameter whose definition has that
      name; none when the list is still null. */
  function GetParameter(c: Command, name: string): (r: Option<CommandParameter>)
    ensures c.parameters.None? ==> r.None?
    ensures r.Some? ==> r.value in c.parameters.value && r.value.metadata.name == name
    ensures r.Some? ==>
      exists i :: 0 <= i < |c.parameters.value| && c.parameters.value[i] == r.value &&
        forall k :: 0 <= k < i ==> c.parameters.value[k].metadata.name != name
    ensures r.None? && c.parameters.Some? ==>
      forall k :: 0 <= k < |c.parameters.value| ==> c.parameters.value[k].metadata.name != name
  {
    match c.parameters
    case None => None
    case Some(ps) => FirstWhere(ps, (p: CommandParameter) => p.metadata.name == name)
  }

  /** A parameter added to a command whose earlier parameters have other names
      is the one `getParameter` returns for its name. */
  lemma AddThenGetParameter(c: Command, p: CommandParameter)
    requires c.parameters.Some? ==> forall k :: 0 <= k < |c.parameters.value| ==> c.parameters.value[k].metadata.name != p.metadata.name
    ensures GetParameter(AddCommandParameter(c, p), p.metadata.name) == Some(p)
  {
    var ps := AddCommandParameter(c, p).parameters.value;
    var r := GetParameter(AddCommandParameter(c, p), p.metadata.name);
    assert ps[|ps| - 1] == p;
    assert r.Some?;
    var i :| 0 <= i < |ps| && ps[i] == r.value && forall k :: 0 <= k < i ==> ps[k].metadata.name != p.metadata.name;
    assert i == |ps| - 1;
  }
}
