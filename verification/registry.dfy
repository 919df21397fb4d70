/** The definition store of the newer interpreter: a map from protocol (null
    included) to command definition, filled by `registerCommand`, read by the
    `findBy...` scans and the name-or-alias lookups. The Java `HashMap`
    iterates in no specified order; the model keeps entries in insertion
    order, which is one of the orders the Java code may see. */
module Registry {
  import opened Outcomes
  import opened Lists
  import opened ProtocolTypes
  import opened Commands

  /** A map key: a protocol, or the null key. */
  type Key = Option<DefaultCommandProtocol>

  datatype Entry = Entry(key: Key, definition: CommandMetadata)

  /** The `commands` map as its entries, oldest first. */
  type Registry = seq<Entry>

  ghost predicate UniqueKeys(r: Registry) {
    forall i, j :: 0 <= i < j < |r| ==> r[i].key != r[j].key
  }

  /** `commands.get(k)`. */
  function Get(r: Registry, k: Key): (d: Option<CommandMetadata>)
    ensures d.None? <==> forall i :: 0 <= i < |r| ==> r[i].key != k
    ensures d.Some? ==> exists i :: 0 <= i < |r| && r[i].key == k && r[i].definition == d.value
  {
    match FirstIndex(r, (e: Entry) => e.key == k)
    case None => None
    case Some(i) => Some(r[i].definition)
  }

  /** Adding entries at the end never changes what an existing key maps to. */
  lemma GetExtends(r: Registry, s: Registry, k: Key)
    requires |r| <= |s| && s[..|r|] == r
    requires Get(r, k).Some?
    ensures Get(s, k) == Get(r, k)
  {
    var i := FirstIndex(r, (e: Entry) => e.key == k).value;
    assert s[i] == r[i];
    var j := FirstIndex(s, (e: Entry) => e.key == k).value;
    assert j <= i;
  }

  /** The keys a definition is filed under: its own protocol, or else the
      protocol of each of its parameters (null included). */
  ghost predicate FiledUnder(m: CommandMetadata, k: Key) {
    if m.protocol.Some? then k == m.protocol
    else m.parameters.Some? && exists j :: 0 <= j < |m.parameters.value| && m.parameters.value[j].protocol == k
  }

  /** What `registerCommand` can build: unique keys, and every definition filed
      under one of its own keys. */
  ghost predicate WellFormed(r: Registry) {
    UniqueKeys(r) && forall i :: 0 <= i < |r| ==> FiledUnder(r[i].definition, r[i].key)
  }

  /** `CommandInitializationException` for a bound key, or the
      `NullPointerException` of iterating a null parameter list. */
  datatype RegistrationError = AlreadyDefined(key: Key) | ParametersNull

  /** The map after a registration attempt, and the exception if one was raised.
      Entries put before the exception stay. */
  datatype Registration = Registration(registry: Registry, error: Option<RegistrationError>)

  /** The parameter-level loop: each parameter's protocol is bound to `m` in
      turn; the first key already bound raises. */
  function BindAll(r: Registry, ps: seq<ParameterMetadata>, m: CommandMetadata): (res: Registration)
    ensures |r| <= |res.registry| <= |r| + |ps| && res.registry[..|r|] == r
    ensures res.error.Some? ==> res.error.value.AlreadyDefined?
    decreases |ps|
  {
    if |ps| == 0 then Registration(r, None)
    else if Get(r, ps[0].protocol).Some? then Registration(r, Some(AlreadyDefined(ps[0].protocol)))
    else
      var res := BindAll(r + [Entry(ps[0].protocol, m)], ps[1..], m);
      assert res.registry[..|r|] == r by {
        assert res.registry[..|r| + 1] == r + [Entry(ps[0].protocol, m)];
      }
      res
  }

  /** The parameter-level loop keeps keys unique, and succeeds exactly when the
      keys of `ps` are fresh and pairwise distinct, adding one entry for `m`
      per parameter, in order. */
  lemma {:induction false} BindAllSuccess(r: Registry, ps: seq<ParameterMetadata>, m: CommandMetadata)
    requires UniqueKeys(r)
    ensures UniqueKeys(BindAll(r, ps, m).registry)
    ensures BindAll(r, ps, m).error.None? <==> UniqueKeys(r + Bindings(ps, m))
    ensures BindAll(r, ps, m).error.None? ==> BindAll(r, ps, m).registry == r + Bindings(ps, m)
    decreases |ps|
  {
    if |ps| == 0 {
      assert r + Bindings(ps, m) == r;
    } else if Get(r, ps[0].protocol).Some? {
      NoFreshKeys(r, ps, m);
    } else {
      FreshKeys(r, ps, m);
      BindAllSuccess(r + [Entry(ps[0].protocol, m)], ps[1..], m);
    }
  }

  /** `e` files `m` under the key of one of the parameters `ps`. */
  ghost predicate NewEntryOf(e: Entry, ps: seq<ParameterMetadata>, m: CommandMetadata) {
    e.definition == m && exists j :: 0 <= j < |ps| && ps[j].protocol == e.key
  }

  /** Every entry the loop adds, whether or not it ends by raising, files `m`
      under the key of one of its parameters. */
  lemma {:induction false} BindAllEntries(r: Registry, ps: seq<ParameterMetadata>, m: CommandMetadata)
    ensures forall i :: |r| <= i < |BindAll(r, ps, m).registry| ==> NewEntryOf(BindAll(r, ps, m).registry[i], ps, m)
    decreases |ps|
  {
    if |ps| > 0 && Get(r, ps[0].protocol).None? {
      var next := r + [Entry(ps[0].protocol, m)];
      var res := BindAll(next, ps[1..], m);
      assert BindAll(r, ps, m) == res;
      BindAllEntries(next, ps[1..], m);
      forall i | |r| <= i < |res.registry| ensures NewEntryOf(res.registry[i], ps, m) {
        if i == |r| {
          assert res.registry[..|next|] == next;
          assert res.registry[i] == next[i];
          assert ps[0].protocol == res.registry[i].key;
        } else {
          assert NewEntryOf(res.registry[i], ps[1..], m);
          var j :| 0 <= j < |ps[1..]| && ps[1..][j].protocol == res.registry[i].key;
          assert ps[j + 1].protocol == res.registry[i].key;
        }
      }
    }
  }

  /** A raised `CommandInitializationException` names the key of one of the
      parameters, and that key is bound when it is raised. */
  lemma {:induction false} BindAllFailure(r: Registry, ps: seq<ParameterMetadata>, m: CommandMetadata)
    ensures var res := BindAll(r, ps, m);
      res.error.Some? ==>
        Get(res.registry, res.error.value.key).Some?
        && exists j :: 0 <= j < |ps| && ps[j].protocol == res.error.value.key
    decreases |ps|
  {
    if |ps| > 0 && Get(r, ps[0].protocol).None? {
      var res := BindAll(r + [Entry(ps[0].protocol, m)], ps[1..], m);
      BindAllFailure(r + [Entry(ps[0].protocol, m)], ps[1..], m);
      if res.error.Some? {
        var j :| 0 <= j < |ps[1..]| && ps[1..][j].protocol == res.error.value.key;
        assert ps[j + 1].protocol == res.error.value.key;
      }
    }
  }

  /** The entries `BindAll` would add for `ps`. */
  function Bindings(ps: seq<ParameterMetadata>, m: CommandMetadata): (b: Registry)
    ensures |b| == |ps|
    ensures forall j :: 0 <= j < |ps| ==> b[j] == Entry(ps[j].protocol, m)
  {
    seq(|ps|, j requires 0 <= j < |ps| => Entry(ps[j].protocol, m))
  }

  lemma NoFreshKeys(r: Registry, ps: seq<ParameterMetadata>, m: CommandMetadata)
    requires |ps| > 0 && Get(r, ps[0].protocol).Some?
    ensures !UniqueKeys(r + Bindings(ps, m))
  {
    var i :| 0 <= i < |r| && r[i].key == ps[0].protocol;
    var all := r + Bindings(ps, m);
    assert all[i].key == all[|r|].key;
  }

  lemma FreshKeys(r: Registry, ps: seq<ParameterMetadata>, m: CommandMetadata)
    requires |ps| > 0 && Get(r, ps[0].protocol).None?
    ensures r + Bindings(ps, m) == (r + [Entry(ps[0].protocol, m)]) + Bindings(ps[1..], m)
    ensures UniqueKeys(r) ==> UniqueKeys(r + [Entry(ps[0].protocol, m)])
  {
    var a := r + Bindings(ps, m);
    var b := (r + [Entry(ps[0].protocol, m)]) + Bindings(ps[1..], m);
    assert |a| == |b|;
    forall i | 0 <= i < |a| ensures a[i] == b[i] {
      if i > |r| {
        assert ps[1..][i - |r| - 1] == ps[i - |r|];
      }
    }
  }

  /** `registerCommand`: a command-level protocol is bound if it is free and
      raises otherwise; without one, each parameter's protocol is bound in turn. */
  function RegisterCommand(r: Registry, m: CommandMetadata): (res: Registration)
    ensures |r| <= |res.registry| && res.registry[..|r|] == r
    ensures m.protocol.Some? ==>
      (res.error.None? <==> Get(r, m.protocol).None?)
      && (res.error.None? ==> res.registry == r + [Entry(m.protocol, m)])
      && (res.error.Some? ==> res == Registration(r, Some(AlreadyDefined(m.protocol))))
    ensures m.protocol.None? && m.parameters.None? ==> res == Registration(r, Some(ParametersNull))
  {
    if m.protocol.Some? then
      if Get(r, m.protocol).None? then Registration(r + [Entry(m.protocol, m)], None)
      else Registration(r, Some(AlreadyDefined(m.protocol)))
    else if m.parameters.None? then Registration(r, Some(ParametersNull))
    else BindAll(r, m.parameters.value, m)
  }

  /** Registration keeps the map well formed, whether or not it raises, and a
      successful one binds every key `m` is filed under to `m`. */
  lemma RegisterPreserves(r: Registry, m: CommandMetadata)
    requires WellFormed(r)
    ensures WellFormed(RegisterCommand(r, m).registry)
    ensures RegisterCommand(r, m).error.None? ==>
      forall k :: FiledUnder(m, k) ==> Get(RegisterCommand(r, m).registry, k) == Some(m)
  {
    if m.protocol.Some? {
      RegisterOnePreserves(r, m);
    } else if m.parameters.Some? {
      RegisterEachPreserves(r, m);
    }
  }

  /** `RegisterPreserves` for a command-level protocol. */
  lemma RegisterOnePreserves(r: Registry, m: CommandMetadata)
    requires WellFormed(r) && m.protocol.Some?
    ensures WellFormed(RegisterCommand(r, m).registry)
    ensures RegisterCommand(r, m).error.None? ==>
      forall k :: FiledUnder(m, k) ==> Get(RegisterCommand(r, m).registry, k) == Some(m)
  {
    var res := RegisterCommand(r, m);
    if res.error.None? {
      forall k | FiledUnder(m, k) ensures Get(res.registry, k) == Some(m) {
        assert res.registry[|r|].key == k;
      }
    }
  }

  /** `RegisterPreserves` for parameter-level protocols. */
  lemma RegisterEachPreserves(r: Registry, m: CommandMetadata)
    requires WellFormed(r) && m.protocol.None? && m.parameters.Some?
    ensures WellFormed(RegisterCommand(r, m).registry)
    ensures RegisterCommand(r, m).error.None? ==>
      forall k :: FiledUnder(m, k) ==> Get(RegisterCommand(r, m).registry, k) == Some(m)
  {
    RegisterEachFiles(r, m);
    RegisterEachBinds(r, m);
  }

  /** Every entry the parameter loop adds is filed under one of the definition's keys. */
  lemma RegisterEachFiles(r: Registry, m: CommandMetadata)
    requires WellFormed(r) && m.protocol.None? && m.parameters.Some?
    ensures WellFormed(RegisterCommand(r, m).registry)
  {
    var res := RegisterCommand(r, m);
    var ps := m.parameters.value;
    BindAllSuccess(r, ps, m);
    BindAllEntries(r, ps, m);
    forall i | 0 <= i < |res.registry| ensures FiledUnder(res.registry[i].definition, res.registry[i].key) {
      if i >= |r| {
        assert NewEntryOf(res.registry[i], ps, m);
      } else {
        assert res.registry[i] == r[i];
      }
    }
  }

  /** A parameter loop that does not raise binds every parameter's key to the definition. */
  lemma RegisterEachBinds(r: Registry, m: CommandMetadata)
    requires WellFormed(r) && m.protocol.None? && m.parameters.Some?
    ensures RegisterCommand(r, m).error.None? ==>
      forall k :: FiledUnder(m, k) ==> Get(RegisterCommand(r, m).registry, k) == Some(m)
  {
    var ps := m.parameters.value;
    BindAllSuccess(r, ps, m);
    if RegisterCommand(r, m).error.None? {
      forall k | FiledUnder(m, k) ensures Get(r + Bindings(ps, m), k) == Some(m) {
        var j :| 0 <= j < |ps| && ps[j].protocol == k;
        BindingFound(r, ps, m, j);
      }
    }
  }

  /** Once bound without a clash, a parameter's key maps to `m`. */
  lemma BindingFound(r: Registry, ps: seq<ParameterMetadata>, m: CommandMetadata, j: nat)
    requires j < |ps| && UniqueKeys(r + Bindings(ps, m))
    ensures Get(r + Bindings(ps, m), ps[j].protocol) == Some(m)
  {
    var all, k := r + Bindings(ps, m), ps[j].protocol;
    assert all[|r| + j] == Entry(k, m);
    var i :| 0 <= i < |all| && all[i].key == k && all[i].definition == Get(all, k).value;
    assert i == |r| + j;
  }

  /** `registerCommands`: registers in list order and stops at the first
      exception; what was registered before it stays. */
  function RegisterCommands(r: Registry, ms: seq<CommandMetadata>): (res: Registration)
    ensures |r| <= |res.registry| && res.registry[..|r|] == r
    decreases |ms|
  {
    if |ms| == 0 then Registration(r, None)
    else
      var first := RegisterCommand(r, ms[0]);
      if first.error.Some? then first
      else
        var res := RegisterCommands(first.registry, ms[1..]);
        assert res.registry[..|r|] == r by {
          assert res.registry[..|first.registry|] == first.registry;
        }
        res
  }

  /** After a successful `registerCommands` on a well-formed map, every key of
      every listed definition is bound to that definition, and the map is still
      well formed. */
  lemma {:induction false} RegisterCommandsBinds(r: Registry, ms: seq<CommandMetadata>)
    requires WellFormed(r)
    ensures WellFormed(RegisterCommands(r, ms).registry)
    ensures RegisterCommands(r, ms).error.None? ==>
      forall i, k :: 0 <= i < |ms| && FiledUnder(ms[i], k) ==> Get(RegisterCommands(r, ms).registry, k) == Some(ms[i])
    decreases |ms|
  {
    if |ms| > 0 {
      var first := RegisterCommand(r, ms[0]);
      RegisterPreserves(r, ms[0]);
      if first.error.None? {
        var res := RegisterCommands(first.registry, ms[1..]);
        RegisterCommandsBinds(first.registry, ms[1..]);
        if res.error.None? {
          forall i, k | 0 <= i < |ms| && FiledUnder(ms[i], k) ensures Get(res.registry, k) == Some(ms[i]) {
            if i == 0 {
              GetExtends(first.registry, res.registry, k);
            } else {
              assert ms[i] == ms[1..][i - 1];
            }
          }
        }
      }
    }
  }

  /** The selection rule of `findByCategory`, `findByGroup` and `findByDomain`,
      stated declaratively: by the command-level protocol when there is one,
      otherwise by any parameter-level protocol that is not null. */
  ghost predicate Selected<X>(m: CommandMetadata, attr: DefaultCommandProtocol -> X, x: X) {
    if m.protocol.Some? then attr(m.protocol.value) == x
    else
      m.parameters.Some? &&
      exists j :: 0 <= j < |m.parameters.value| &&
        m.parameters.value[j].protocol.Some? && attr(m.parameters.value[j].protocol.value) == x
  }

  /** The inner loop with its `break`: whether some parameter has a protocol
      whose attribute is `x`. */
  function AnyParameter<X(==)>(ps: seq<ParameterMetadata>, attr: DefaultCommandProtocol -> X, x: X): (b: bool)
    ensures b <==> exists j :: 0 <= j < |ps| && ps[j].protocol.Some? && attr(ps[j].protocol.value) == x
  {
    if |ps| == 0 then false
    else if ps[0].protocol.Some? && attr(ps[0].protocol.value) == x then true
    else
      var b := AnyParameter(ps[1..], attr, x);
      assert forall j :: 1 <= j < |ps| ==> ps[j] == ps[1..][j - 1];
      b
  }

  /** The body of the outer loop for one definition. A definition without a
      command-level protocol and without a parameter list raises
      `NullPointerException`. */
  function Selects<X(==)>(m: CommandMetadata, attr: DefaultCommandProtocol -> X, x: X): (r: Result<bool, NullPointer>)
    ensures r.Failure? <==> m.protocol.None? && m.parameters.None?
    ensures r.Success? ==> (r.value <==> Selected(m, attr, x))
  {
    if m.protocol.Some? then Success(attr(m.protocol.value) == x)
    else if m.parameters.None? then Failure(NullPointer)
    else Success(AnyParameter(m.parameters.value, attr, x))
  }

  /** The shared scan of the three `findBy...` methods, in map order. */
  function FindBy<X(==)>(r: Registry, attr: DefaultCommandProtocol -> X, x: X): (res: Result<seq<CommandMetadata>, NullPointer>)
    ensures res.Failure? <==> exists i :: 0 <= i < |r| && r[i].definition.protocol.None? && r[i].definition.parameters.None?
    ensures res.Success? ==> |res.value| <= |r|
    ensures res.Success? ==> forall m :: m in res.value <==>
      exists i :: 0 <= i < |r| && r[i].definition == m && Selected(m, attr, x)
  {
    if |r| == 0 then Success([])
    else
      match Selects(r[0].definition, attr, x)
      case Failure(e) => Failure(e)
      case Success(b) =>
        match FindBy(r[1..], attr, x)
        case Failure(e) =>
          assert forall i :: 1 <= i < |r| ==> r[i] == r[1..][i - 1];
          Failure(e)
        case Success(rest) =>
          assert forall i :: 1 <= i < |r| ==> r[i] == r[1..][i - 1];
          assert forall i :: 0 <= i < |r| - 1 ==> r[1..][i] == r[i + 1];
          Success(if b then [r[0].definition] + rest else rest)
  }

  /** `FindBy` is the filter of the map by `Selected`: scanning one more entry
      adds that entry's definition exactly when it is selected, so each entry
      contributes at most once. */
  lemma {:induction false} FindByAppend<X>(r: Registry, e: Entry, attr: DefaultCommandProtocol -> X, x: X)
    requires FindBy(r + [e], attr, x).Success?
    ensures FindBy(r, attr, x).Success?
    ensures FindBy(r + [e], attr, x).value ==
      FindBy(r, attr, x).value + (if Selected(e.definition, attr, x) then [e.definition] else [])
    decreases |r|
  {
    if |r| == 0 {
      assert [e][1..] == [];
    } else {
      assert (r + [e])[1..] == r[1..] + [e];
      assert (r + [e])[0] == r[0];
      FindByAppend(r[1..], e, attr, x);
    }
  }

  /** A well-formed map never makes the scans raise. */
  lemma FindBySafe<X>(r: Registry, attr: DefaultCommandProtocol -> X, x: X)
    requires WellFormed(r)
    ensures FindBy(r, attr, x).Success?
  {
    forall i | 0 <= i < |r| ensures !(r[i].definition.protocol.None? && r[i].definition.parameters.None?) {
      assert FiledUnder(r[i].definition, r[i].key);
    }
  }

  function FindByCategory(r: Registry, c: DefaultCommandCategoryType): (res: Result<seq<CommandMetadata>, NullPointer>)
    ensures res.Success? ==> forall m :: m in res.value <==>
      exists i :: 0 <= i < |r| && r[i].definition == m && Selected(m, ProtocolCategory, c)
  {
    FindBy(r, ProtocolCategory, c)
  }

  function FindByGroup(r: Registry, g: DefaultCommandGroupType): (res: Result<seq<CommandMetadata>, NullPointer>)
    ensures res.Success? ==> forall m :: m in res.value <==>
      exists i :: 0 <= i < |r| && r[i].definition == m && Selected(m, ProtocolGroup, g)
  {
    FindBy(r, ProtocolGroup, g)
  }

  function FindByDomain(r: Registry, d: DefaultCommandDomainType): (res: Result<seq<CommandMetadata>, NullPointer>)
    ensures res.Success? ==> forall m :: m in res.value <==>
      exists i :: 0 <= i < |r| && r[i].definition == m && Selected(m, ProtocolDomain, d)
  {
    FindBy(r, ProtocolDomain, d)
  }

  /** `m` answers to `s` by its name or one of its aliases, exactly. */
  predicate Named(m: CommandMetadata, s: string) {
    m.name == s || (m.aliases.Some? && s in m.aliases.value)
  }

  /** The name-then-aliases test of the two `getCommandBy...` methods. The alias
      list is only read when the name differs, and a null one raises. */
  function Answers(m: CommandMetadata, s: string): (r: Result<bool, NullPointer>)
    ensures r.Failure? <==> m.name != s && m.aliases.None?
    ensures r.Success? ==> (r.value <==> Named(m, s))
  {
    if m.name == s then Success(true)
    else if m.aliases.None? then Failure(NullPointer)
    else Success(s in m.aliases.value)
  }

  /** `getCommandByProtocol`: the definition bound to the protocol, provided it
      answers to the name or alias. */
  function GetCommandByProtocol(r: Registry, p: DefaultCommandProtocol, s: string): (res: Result<Option<CommandMetadata>, NullPointer>)
    ensures res.Success? && res.value.Some? ==> Get(r, Some(p)) == res.value && Named(res.value.value, s)
    ensures res == Success(None) <==> Get(r, Some(p)).None? || (Get(r, Some(p)).value.aliases.Some? && !Named(Get(r, Some(p)).value, s))
    ensures res.Failure? <==> Get(r, Some(p)).Some? && Get(r, Some(p)).value.name != s && Get(r, Some(p)).value.aliases.None?
  {
    match Get(r, Some(p))
    case None => Success(None)
    case Some(m) =>
      match Answers(m, s)
      case Failure(e) => Failure(e)
      case Success(b) => Success(if b then Some(m) else None)
  }

  /** The first definition of `ms` answering to `s`; reaching one that neither
      has the name nor an alias list raises. */
  function FirstNamed(ms: seq<CommandMetadata>, s: string): (res: Result<Option<CommandMetadata>, NullPointer>)
    ensures res.Success? && res.value.Some? ==>
      exists i :: 0 <= i < |ms| && ms[i] == res.value.value && Named(ms[i], s)
        && forall k :: 0 <= k < i ==> !Named(ms[k], s)
    ensures res == Success(None) <==> forall k :: 0 <= k < |ms| ==> !Named(ms[k], s) && ms[k].aliases.Some?
    ensures res.Failure? ==> exists k :: 0 <= k < |ms| && ms[k].name != s && ms[k].aliases.None?
  {
    if |ms| == 0 then Success(None)
    else
      match Answers(ms[0], s)
      case Failure(e) => Failure(e)
      case Success(true) => Success(Some(ms[0]))
      case Success(false) =>
        var res := FirstNamed(ms[1..], s);
        assert forall k :: 1 <= k < |ms| ==> ms[k] == ms[1..][k - 1];
        if res.Success? && res.value.Some? then
          var i :| 0 <= i < |ms[1..]| && ms[1..][i] == res.value.value && Named(ms[1..][i], s)
            && forall k :: 0 <= k < i ==> !Named(ms[1..][k], s);
          assert ms[i + 1] == res.value.value;
          res
        else if res.Failure? then
          var k :| 0 <= k < |ms[1..]| && ms[1..][k].name != s && ms[1..][k].aliases.None?;
          assert ms[k + 1] == ms[1..][k];
          res
        else res
  }

  /** `getCommandByCategory`: the first definition, in `findByCategory` order,
      that answers to the name or alias. */
  function GetCommandByCategory(r: Registry, c: DefaultCommandCategoryType, s: string): (res: Result<Option<CommandMetadata>, NullPointer>)
    ensures res.Success? && res.value.Some? ==>
      Named(res.value.value, s) && Selected(res.value.value, ProtocolCategory, c)
      && exists i :: 0 <= i < |r| && r[i].definition == res.value.value
  {
    match FindByCategory(r, c)
    case Failure(e) => Failure(e)
    case Success(list) => FirstNamed(list, s)
  }

  /** On a well-formed map whose definitions all have alias lists, the category
      lookup finds a definition exactly when some definition of that category
      answers to the name. */
  lemma GetCommandByCategoryIff(r: Registry, c: DefaultCommandCategoryType, s: string)
    requires WellFormed(r)
    requires forall i :: 0 <= i < |r| ==> r[i].definition.aliases.Some?
    ensures GetCommandByCategory(r, c, s).Success?
    ensures GetCommandByCategory(r, c, s).value.Some? <==>
      exists i :: 0 <= i < |r| && Selected(r[i].definition, ProtocolCategory, c) && Named(r[i].definition, s)
  {
    FindBySafe(r, ProtocolCategory, c);
    var list := FindByCategory(r, c).value;
    forall k | 0 <= k < |list| ensures list[k].aliases.Some? {
      assert list[k] in list;
    }
    var res := GetCommandByCategory(r, c, s);
    if exists i :: 0 <= i < |r| && Selected(r[i].definition, ProtocolCategory, c) && Named(r[i].definition, s) {
      var i :| 0 <= i < |r| && Selected(r[i].definition, ProtocolCategory, c) && Named(r[i].definition, s);
      assert r[i].definition in list;
    }
  }
}
