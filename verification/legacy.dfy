/** The earlier generation of the command package, `command/internal`: its
    value objects and its `CommandInterpreter`, which files definitions under
    their category, matches the whole line against a fixed head expression,
    and collects every value group of a parameter into a list. The parameter
    class of that package, `command/internal/CommandParameter.java`, is not
    part of this model: a parameter is taken to hold its text, its definition
    and the collected values. */
module Legacy {
  import opened Outcomes
  import opened JavaText
  import opened Lists
  import opened Regex
  import opened LegacyTypes

  // ---------------------------------------------------------------------------
  // Value objects.

  /** `internal/CommandParameterMetadata`; the class type is kept as its name. */
  datatype ParameterDefinition = ParameterDefinition(
    name: string,
    description: string,
    tag: string,
    regExp: Option<string>,
    classType: Option<string>,
    examples: Option<seq<string>>)

  /** The constructor: the three strings as given, everything else null. */
  function NewParameterDefinition(name: string, description: string, tag: string): (m: ParameterDefinition)
    ensures m.name == name && m.description == description && m.tag == tag
    ensures m.regExp.None? && m.classType.None? && m.examples.None?
  {
    ParameterDefinition(name, description, tag, None, None, None)
  }

  /** `addExample`: the list is created on first use and the example goes at
      its end; nothing else changes. */
  function AddExample(m: ParameterDefinition, example: string): (r: ParameterDefinition)
    ensures r.examples.Some? && r.examples.value == m.examples.GetOr([]) + [example]
    ensures r.(examples := m.examples) == m
  {
    m.(examples := Append(m.examples, example))
  }

  /** Two examples added to a fresh definition are kept in the order added. */
  lemma ExamplesInOrder(name: string, description: string, tag: string, a: string, b: string)
    ensures AddExample(AddExample(NewParameterDefinition(name, description, tag), a), b).examples == Some([a, b])
  {
    AppendOrder(None, a, b);
    assert [] + [a, b] == [a, b];
  }

  /** The NullPointerException of a `for` loop over a null list. */
  datatype NullPointer = NullPointer

  /** `internal/CommandMetadata`. */
  datatype Definition = Definition(
    name: string,
    description: Option<string>,
    category: CommandCategoryType,
    group: CommandGroupType,
    code: CommandCodeType,
    syntax: Option<string>,
    aliases: Option<seq<string>>,
    parameters: Option<seq<ParameterDefinition>>)

  /** The constructor: category, group, code and name as given. */
  function NewDefinition(category: CommandCategoryType, group: CommandGroupType, code: CommandCodeType, name: string): (d: Definition)
    ensures d.category == category && d.group == group && d.code == code && d.name == name
    ensures d.description.None? && d.syntax.None? && d.aliases.None? && d.parameters.None?
  {
    Definition(name, None, category, group, code, None, None, None)
  }

  /** `addParameter`: the list is created on first use and the parameter goes
      at its end. */
  function AddParameter(d: Definition, p: ParameterDefinition): (r: Definition)
    ensures r.parameters.Some? && r.parameters.value == d.parameters.GetOr([]) + [p]
    ensures r.(parameters := d.parameters) == d
  {
    d.(parameters := Append(d.parameters, p))
  }

  /** `getByName`: the first parameter with exactly that name; a definition
      without parameters raises. */
  function GetByName(d: Definition, name: string): (r: Result<Option<ParameterDefinition>, NullPointer>)
    ensures r.Failure? <==> d.parameters.None?
    ensures r.Success? && r.value.Some? ==> r.value.value in d.parameters.value && r.value.value.name == name
    ensures r.Success? && r.value.Some? ==>
      exists i :: 0 <= i < |d.parameters.value| && d.parameters.value[i] == r.value.value &&
        forall k :: 0 <= k < i ==> d.parameters.value[k].name != name
    ensures r.Success? && r.value.None? <==> d.parameters.Some? && forall k :: 0 <= k < |d.parameters.value| ==> d.parameters.value[k].name != name
  {
    if d.parameters.None? then Failure(NullPointer)
    else Success(FirstWhere(d.parameters.value, (p: ParameterDefinition) => p.name == name))
  }

  /** `getByTag`: the first parameter with exactly that tag; a definition
      without parameters raises. */
  function GetByTag(d: Definition, tag: string): (r: Result<Option<ParameterDefinition>, NullPointer>)
    ensures r.Failure? <==> d.parameters.None?
    ensures r.Success? && r.value.Some? ==> r.value.value in d.parameters.value && r.value.value.tag == tag
    ensures r.Success? && r.value.Some? ==>
      exists i :: 0 <= i < |d.parameters.value| && d.parameters.value[i] == r.value.value &&
        forall k :: 0 <= k < i ==> d.parameters.value[k].tag != tag
    ensures r.Success? && r.value.None? <==> d.parameters.Some? && forall k :: 0 <= k < |d.parameters.value| ==> d.parameters.value[k].tag != tag
  {
    if d.parameters.None? then Failure(NullPointer)
    else Success(FirstWhere(d.parameters.value, (p: ParameterDefinition) => p.tag == tag))
  }

  /** A parameter just added is found by its name and by its tag, unless an
      earlier parameter already carries that name or tag. */
  lemma AddThenFind(d: Definition, p: ParameterDefinition)
    requires d.parameters.None? || forall k :: 0 <= k < |d.parameters.value| ==> d.parameters.value[k].name != p.name
    requires d.parameters.None? || forall k :: 0 <= k < |d.parameters.value| ==> d.parameters.value[k].tag != p.tag
    ensures GetByName(AddParameter(d, p), p.name) == Success(Some(p))
    ensures GetByTag(AddParameter(d, p), p.tag) == Success(Some(p))
  {
    AddThenFindByName(d, p);
    AddThenFindByTag(d, p);
  }

  /** The name half of `AddThenFind`. */
  lemma AddThenFindByName(d: Definition, p: ParameterDefinition)
    requires d.parameters.None? || forall k :: 0 <= k < |d.parameters.value| ==> d.parameters.value[k].name != p.name
    ensures GetByName(AddParameter(d, p), p.name) == Success(Some(p))
  {
    var ps := AddParameter(d, p).parameters.value;
    assert ps[|ps| - 1] == p;
    var byName := GetByName(AddParameter(d, p), p.name);
    var i :| 0 <= i < |ps| && ps[i] == byName.value.value && forall k :: 0 <= k < i ==> ps[k].name != p.name;
    assert i == |ps| - 1;
  }

  /** The tag half of `AddThenFind`. */
  lemma AddThenFindByTag(d: Definition, p: ParameterDefinition)
    requires d.parameters.None? || forall k :: 0 <= k < |d.parameters.value| ==> d.parameters.value[k].tag != p.tag
    ensures GetByTag(AddParameter(d, p), p.tag) == Success(Some(p))
  {
    var ps := AddParameter(d, p).parameters.value;
    assert ps[|ps| - 1] == p;
    var byTag := GetByTag(AddParameter(d, p), p.tag);
    var j :| 0 <= j < |ps| && ps[j] == byTag.value.value && forall k :: 0 <= k < j ==> ps[k].tag != p.tag;
    assert j == |ps| - 1;
  }

  /** A parameter of a command: its text, its definition and the values its
      expression captured. */
  datatype Parameter = Parameter(text: string, metadata: ParameterDefinition, values: seq<string>)

  /** `internal/Command`. */
  datatype Command = Command(text: string, metadata: Option<Definition>, parameters: Option<seq<Parameter>>)

  /** The constructor: the text as given, no definition, no parameter list. */
  function NewCommand(text: string): (c: Command)
    ensures c.text == text && c.metadata.None? && c.parameters.None?
  {
    Command(text, None, None)
  }

  /** `setMetadata` replaces the definition only. */
  function SetMetadata(c: Command, metadata: Option<Definition>): (r: Command)
    ensures r.metadata == metadata && r.(metadata := c.metadata) == c
  {
    c.(metadata := metadata)
  }

  /** `addParameter`: the list is created on first use, and the parameter goes
      at its end. */
  function AddCommandParameter(c: Command, p: Parameter): (r: Command)
    ensures r.parameters.Some? && r.parameters.value == c.parameters.GetOr([]) + [p]
    ensures r.text == c.text && r.metadata == c.metadata
  {
    c.(parameters := Append(c.parameters, p))
  }

  /** Adding parameters one by one keeps them in the order added and never
      changes the text. */
  lemma {:induction false} CommandParametersInOrder(c: Command, ps: seq<Parameter>)
    requires c.parameters.None?
    ensures AddAll(c, ps).text == c.text && AddAll(c, ps).metadata == c.metadata
    ensures |ps| > 0 ==> AddAll(c, ps).parameters == Some(ps)
    ensures |ps| == 0 ==> AddAll(c, ps).parameters.None?
    decreases |ps|
  {
    if |ps| > 0 {
      var init, last := ps[..|ps| - 1], ps[|ps| - 1];
      CommandParametersInOrder(c, init);
      var prev := AddAll(c, init);
      assert AddAll(c, ps) == AddCommandParameter(prev, last);
      assert prev.parameters.GetOr([]) == init;
      assert init + [last] == ps;
    }
  }

  /** The parameters of `ps` added one after the other. */
  function AddAll(c: Command, ps: seq<Parameter>): Command
    decreases |ps|
  {
    if |ps| == 0 then c else AddCommandParameter(AddAll(c, ps[..|ps| - 1]), ps[|ps| - 1])
  }

  // ---------------------------------------------------------------------------
  // The registry: one list of definitions per category.

  /** The interpreter's map from a category to the definitions filed under it. */
  type Catalogue = map<CommandCategoryType, seq<Definition>>

  /** Every definition is filed under its own category, at most once. */
  predicate Filed(r: Catalogue) {
    (forall c, k :: c in r && 0 <= k < |r[c]| ==> r[c][k].category == c)
    && (forall c, i, j :: c in r && 0 <= i < j < |r[c]| ==> r[c][i] != r[c][j])
  }

  /** `registerCommand`: the definition joins the end of its category's list,
      unless the list already holds it. Other categories are not touched. */
  function RegisterCommand(r: Catalogue, d: Definition): (r': Catalogue)
    ensures d.category in r' && d in r'[d.category]
    ensures forall c :: c != d.category ==> (c in r' <==> c in r) && (c in r ==> r'[c] == r[c])
    ensures d.category in r && d in r[d.category] ==> r' == r
    ensures !(d.category in r && d in r[d.category]) ==>
      r'[d.category] == (if d.category in r then r[d.category] else []) + [d]
  {
    if d.category in r && d in r[d.category] then r
    else r[d.category := (if d.category in r then r[d.category] else []) + [d]]
  }

  /** Registering is idempotent and keeps every list filed and free of
      repeats. */
  lemma RegisterKeepsFiled(r: Catalogue, d: Definition)
    requires Filed(r)
    ensures Filed(RegisterCommand(r, d))
    ensures RegisterCommand(RegisterCommand(r, d), d) == RegisterCommand(r, d)
  {
    var r' := RegisterCommand(r, d);
    if !(d.category in r && d in r[d.category]) {
      var prior := if d.category in r then r[d.category] else [];
      var l := r'[d.category];
      assert l == prior + [d];
      forall i, j | 0 <= i < j < |l| ensures l[i] != l[j] {
        if j == |l| - 1 {
          assert l[i] in prior;
        } else {
          assert l[i] == r[d.category][i] && l[j] == r[d.category][j];
        }
      }
      forall k | 0 <= k < |l| ensures l[k].category == d.category {
        if k < |prior| {
          assert l[k] == r[d.category][k];
        }
      }
    }
  }

  /** `registerCommands`: each definition in list order. */
  function RegisterCommands(r: Catalogue, ds: seq<Definition>): (r': Catalogue)
    decreases |ds|
  {
    if |ds| == 0 then r else RegisterCommands(RegisterCommand(r, ds[0]), ds[1..])
  }

  /** After `registerCommands`, every definition of the list is filed under its
      category, the catalogue stays filed, and a category none of them has is
      untouched. */
  lemma {:induction false} RegisterCommandsFiles(r: Catalogue, ds: seq<Definition>)
    requires Filed(r)
    ensures Filed(RegisterCommands(r, ds))
    ensures forall k :: 0 <= k < |ds| ==>
      ds[k].category in RegisterCommands(r, ds) && ds[k] in RegisterCommands(r, ds)[ds[k].category]
    ensures forall c :: c in r ==> c in RegisterCommands(r, ds) && r[c] <= RegisterCommands(r, ds)[c]
    ensures forall c :: (forall k :: 0 <= k < |ds| ==> ds[k].category != c) ==>
      (c in RegisterCommands(r, ds) <==> c in r) && (c in r ==> RegisterCommands(r, ds)[c] == r[c])
    decreases |ds|
  {
    if |ds| > 0 {
      var r1 := RegisterCommand(r, ds[0]);
      RegisterKeepsFiled(r, ds[0]);
      RegisterCommandsFiles(r1, ds[1..]);
      var r' := RegisterCommands(r, ds);
      assert r' == RegisterCommands(r1, ds[1..]);
      forall k | 0 <= k < |ds| ensures ds[k].category in r' && ds[k] in r'[ds[k].category] {
        if k == 0 {
          assert r1[ds[0].category] <= r'[ds[0].category];
        } else {
          assert ds[k] == ds[1..][k - 1];
        }
      }
      forall c | c in r ensures c in r' && r[c] <= r'[c] {
        assert r[c] <= r1[c];
      }
      forall c | forall k :: 0 <= k < |ds| ==> ds[k].category != c
        ensures (c in r' <==> c in r) && (c in r ==> r'[c] == r[c])
      {
        assert ds[0].category != c;
        forall k | 0 <= k < |ds[1..]| ensures ds[1..][k].category != c {
          assert ds[1..][k] == ds[k + 1];
        }
      }
    }
  }

  /** The alias loop of `getCommand` from position `i` of `ds` on: the first
      definition whose alias list holds `s`, every one before it having an
      alias list; a null alias list reached first raises. */
  function AliasScanFrom(ds: seq<Definition>, s: string, i: nat): (r: Result<Option<Definition>, NullPointer>)
    requires i <= |ds|
    ensures r.Success? && r.value.Some? ==>
      exists j :: i <= j < |ds| && ds[j] == r.value.value && ds[j].aliases.Some? && s in ds[j].aliases.value &&
        forall k :: i <= k < j ==> ds[k].aliases.Some? && s !in ds[k].aliases.value
    ensures r.Success? && r.value.None? <==>
      forall k :: i <= k < |ds| ==> ds[k].aliases.Some? && s !in ds[k].aliases.value
    ensures r.Failure? <==>
      exists j :: i <= j < |ds| && ds[j].aliases.None? &&
        forall k :: i <= k < j ==> s !in ds[k].aliases.GetOr([])
    decreases |ds| - i
  {
    if i == |ds| then Success(None)
    else if ds[i].aliases.None? then Failure(NullPointer)
    else if s in ds[i].aliases.value then Success(Some(ds[i]))
    else AliasScanFrom(ds, s, i + 1)
  }

  /** Some definition of `ds` answers to `s` by one of its aliases, and every
      one before it has an alias list. */
  function AliasScan(ds: seq<Definition>, s: string): (r: Result<Option<Definition>, NullPointer>)
    ensures r.Success? && r.value.Some? ==> r.value.value in ds && r.value.value.aliases.Some? && s in r.value.value.aliases.value
    ensures r.Success? && r.value.Some? ==>
      exists i :: 0 <= i < |ds| && ds[i] == r.value.value &&
        forall k :: 0 <= k < i ==> ds[k].aliases.Some? && s !in ds[k].aliases.value
    ensures r.Success? && r.value.None? <==>
      forall k :: 0 <= k < |ds| ==> ds[k].aliases.Some? && s !in ds[k].aliases.value
    ensures r.Failure? <==>
      exists i :: 0 <= i < |ds| && ds[i].aliases.None? &&
        forall k :: 0 <= k < i ==> s !in ds[k].aliases.GetOr([])
  {
    AliasScanFrom(ds, s, 0)
  }

  /** `getCommand`: among the definitions of the category, the first whose
      name is exactly `s`; failing that, the first with `s` among its
      aliases. A category nothing was filed under, or an alias list that is
      null when the alias loop reaches it, raises. */
  function GetCommand(r: Catalogue, c: CommandCategoryType, s: string): (res: Result<Option<Definition>, NullPointer>)
    ensures c !in r ==> res.Failure?
    ensures res.Success? && res.value.Some? ==>
      c in r && res.value.value in r[c] &&
      (res.value.value.name == s || (res.value.value.aliases.Some? && s in res.value.value.aliases.value))
    ensures c in r && (exists k :: 0 <= k < |r[c]| && r[c][k].name == s) ==>
      res.Success? && res.value.Some? && res.value.value.name == s
      && exists i :: 0 <= i < |r[c]| && r[c][i] == res.value.value && forall k :: 0 <= k < i ==> r[c][k].name != s
    ensures res.Success? && res.value.None? <==> (c in r &&
      forall k :: 0 <= k < |r[c]| ==> r[c][k].name != s && r[c][k].aliases.Some? && s !in r[c][k].aliases.value)
    ensures c in r && (forall k :: 0 <= k < |r[c]| ==> r[c][k].name != s) && res.Success? && res.value.Some? ==>
      exists i :: 0 <= i < |r[c]| && r[c][i] == res.value.value &&
        forall k :: 0 <= k < i ==> r[c][k].aliases.Some? && s !in r[c][k].aliases.value
    ensures res.Failure? <==>
      (c !in r || ((forall k :: 0 <= k < |r[c]| ==> r[c][k].name != s) &&
        exists i :: 0 <= i < |r[c]| && r[c][i].aliases.None? &&
          forall k :: 0 <= k < i ==> s !in r[c][k].aliases.GetOr([])))
  {
    if c !in r then Failure(NullPointer)
    else
      match FirstWhere(r[c], (d: Definition) => d.name == s)
      case Some(d) => Success(Some(d))
      case None => AliasScan(r[c], s)
  }

  // ---------------------------------------------------------------------------
  // The command head: `^\s*+((\*|/|#|%|.)\s*+([a-zA-Z0-9\s]*)).*+$`, which
  // `matches` must fit to the whole line.

  /** Groups 1, 2 and 3 of a successful match. */
  datatype LineHead = LineHead(command: string, prefix: string, name: string)

  /** No line terminator occurs in `s` from `k` on: what `.*+$` needs. */
  predicate EndsLine(s: string, k: nat)
    requires k <= |s|
  {
    forall t :: k <= t < |s| ==> !IsLineTerminator(s[t])
  }

  /** `matches` with the head expression. The possessive stars take every
      blank; the prefix is the next character unless it ends a line; the name
      is the longest run of letters, digits and blanks after it; and the rest
      of the line must hold no line terminator. Giving back characters of the
      name does not help: `.` cannot cross a terminator either. */
  function MatchLine(s: string): (h: Option<LineHead>)
    ensures h.Some? ==> |h.value.prefix| == 1 && |h.value.command| >= 1
    ensures h.Some? ==> h.value.command[..1] == h.value.prefix && !IsRegexSpace(h.value.prefix[0]) && !IsLineTerminator(h.value.prefix[0])
    ensures h.Some? ==>
      exists i, k :: 0 <= i < k <= |s| && s[i..k] == h.value.command &&
        (forall t :: 0 <= t < i ==> IsRegexSpace(s[t])) && EndsLine(s, k)
    ensures h.Some? ==> |h.value.name| < |h.value.command| && h.value.command[|h.value.command| - |h.value.name|..] == h.value.name
    ensures h.Some? ==> forall t :: 0 <= t < |h.value.name| ==> IsNameChar(h.value.name[t])
  {
    var i := Span(s, 0, Blanks);
    if i == |s| || IsLineTerminator(s[i]) then None
    else
      var j := Span(s, i + 1, Blanks);
      var k := Span(s, j, NameChars);
      if !EndsLine(s, k) then None
      else
        Some(SpannedGroups(s, i, j, k))
  }

  /** A blank line has no head: the prefix must be a character that is not a
      blank. */
  lemma BlankLine(s: string)
    requires forall t :: 0 <= t < |s| ==> IsRegexSpace(s[t])
    ensures MatchLine(s).None?
  {
    SpanIs(s, 0, |s|, Blanks);
  }

  /** The groups of a line whose blanks end at `i`, whose gap ends at `j` and
      whose name ends at `k`. */
  function Groups(s: string, i: nat, j: nat, k: nat): (h: LineHead)
    requires i < j <= k <= |s|
    requires forall t :: 0 <= t < i ==> IsRegexSpace(s[t])
    requires !IsRegexSpace(s[i]) && !IsLineTerminator(s[i])
    requires forall t :: j <= t < k ==> IsNameChar(s[t])
    requires EndsLine(s, k)
    ensures |h.prefix| == 1 && |h.command| >= 1
    ensures h.command[..1] == h.prefix && !IsRegexSpace(h.prefix[0]) && !IsLineTerminator(h.prefix[0])
    ensures exists i', k' ::
      (0 <= i' < k' <= |s| && s[i'..k'] == h.command && (forall t :: 0 <= t < i' ==> IsRegexSpace(s[t])) && EndsLine(s, k'))
    ensures |h.name| < |h.command| && h.command[|h.command| - |h.name|..] == h.name
    ensures forall t :: 0 <= t < |h.name| ==> IsNameChar(h.name[t])
  {
    SliceParts(s, i, j, k);
    NameCharsSlice(s, j, k);
    assert 0 <= i < k <= |s| && s[i..k] == s[i..k] && (forall t :: 0 <= t < i ==> IsRegexSpace(s[t])) && EndsLine(s, k);
    LineHead(s[i..k], s[i..i + 1], s[j..k])
  }

  /** The groups of a line, with the runs measured by `Span`. */
  function SpannedGroups(s: string, i: nat, j: nat, k: nat): (h: LineHead)
    requires i == Span(s, 0, Blanks) && i < |s| && !IsLineTerminator(s[i])
    requires i < j <= |s| && k == Span(s, j, NameChars) && EndsLine(s, k)
    ensures |h.prefix| == 1 && |h.command| >= 1
    ensures h.command[..1] == h.prefix && !IsRegexSpace(h.prefix[0]) && !IsLineTerminator(h.prefix[0])
    ensures exists i', k' ::
      (0 <= i' < k' <= |s| && s[i'..k'] == h.command && (forall t :: 0 <= t < i' ==> IsRegexSpace(s[t])) && EndsLine(s, k'))
    ensures |h.name| < |h.command| && h.command[|h.command| - |h.name|..] == h.name
    ensures forall t :: 0 <= t < |h.name| ==> IsNameChar(h.name[t])
  {
    SpanRun(s, 0, Blanks);
    SpanRun(s, j, NameChars);
    Groups(s, i, j, k)
  }

  /** Group 2 begins group 1, and group 3 ends it. */
  lemma SliceParts(s: string, i: nat, j: nat, k: nat)
    requires i < j <= k <= |s|
    ensures s[i..k][..1] == s[i..i + 1] && s[i..i + 1][0] == s[i]
    ensures |s[j..k]| < |s[i..k]| && s[i..k][|s[i..k]| - |s[j..k]|..] == s[j..k]
  {
  }

  /** A run of letters, digits and blanks, cut out of the line. */
  lemma NameCharsSlice(s: string, j: nat, k: nat)
    requires j <= k <= |s| && forall t :: j <= t < k ==> IsNameChar(s[t])
    ensures forall t :: 0 <= t < |s[j..k]| ==> IsNameChar(s[j..k][t])
  {
  }

  /** The head of `lead + [p] + gap + name + rest`, where `lead` and `gap` are
      blanks, `name` is the longest run of letters, digits and blanks after
      the gap, and `rest` holds no line terminator. */
  lemma LineOf(lead: string, p: char, gap: string, name: string, rest: string)
    requires forall k :: 0 <= k < |lead| ==> IsRegexSpace(lead[k])
    requires !IsRegexSpace(p) && !IsLineTerminator(p)
    requires forall k :: 0 <= k < |gap| ==> IsRegexSpace(gap[k])
    requires forall k :: 0 <= k < |name| ==> IsNameChar(name[k])
    requires |name| > 0 ==> !IsRegexSpace(name[0])
    requires |rest| > 0 ==> !IsNameChar(rest[0])
    requires forall k :: 0 <= k < |rest| ==> !IsLineTerminator(rest[k])
    ensures MatchLine(lead + [p] + gap + name + rest) == Some(LineHead([p] + gap + name, [p], name))
  {
    var s := lead + [p] + gap + name + rest;
    var i, j, k := |lead|, |lead| + 1 + |gap|, |lead| + 1 + |gap| + |name|;
    LineSplit(lead, p, gap, name, rest);
    assert EndsLine(s, k) by {
      forall t | k <= t < |s| ensures !IsLineTerminator(s[t]) {
        assert s[t] == rest[t - k];
      }
    }
    LineAt(s, i, j, k);
  }

  /** The spans of `lead + [p] + gap + name + rest` and the groups they
      delimit. */
  lemma LineSplit(lead: string, p: char, gap: string, name: string, rest: string)
    requires forall k :: 0 <= k < |lead| ==> IsRegexSpace(lead[k])
    requires !IsRegexSpace(p)
    requires forall k :: 0 <= k < |gap| ==> IsRegexSpace(gap[k])
    requires forall k :: 0 <= k < |name| ==> IsNameChar(name[k])
    requires |name| > 0 ==> !IsRegexSpace(name[0])
    requires |rest| > 0 ==> !IsNameChar(rest[0])
    ensures var s, i, j, k := lead + [p] + gap + name + rest, |lead|, |lead| + 1 + |gap|, |lead| + 1 + |gap| + |name|;
      && |s| == k + |rest| && s[i] == p
      && (forall t :: k <= t < |s| ==> s[t] == rest[t - k])
      && Span(s, 0, Blanks) == i && Span(s, i + 1, Blanks) == j && Span(s, j, NameChars) == k
      && s[i..k] == [p] + gap + name && s[i..i + 1] == [p] && s[j..k] == name
  {
    var s := lead + [p] + gap + name + rest;
    var i, j, k := |lead|, |lead| + 1 + |gap|, |lead| + 1 + |gap| + |name|;
    LineShape(s, lead, p, gap, name, rest);
    assert j == |s| || !IsRegexSpace(s[j]);
    LineSpans(s, i, j, k);
  }

  /** The runs the three stars of the head expression take on a line whose
      blanks end at `i`, whose gap ends at `j` and whose name ends at `k`. */
  lemma LineSpans(s: string, i: nat, j: nat, k: nat)
    requires i < j <= k <= |s|
    requires forall t :: 0 <= t < i ==> IsRegexSpace(s[t])
    requires !IsRegexSpace(s[i])
    requires forall t :: i < t < j ==> IsRegexSpace(s[t])
    requires j == |s| || !IsRegexSpace(s[j])
    requires forall t :: j <= t < k ==> IsNameChar(s[t])
    requires k == |s| || !IsNameChar(s[k])
    ensures Span(s, 0, Blanks) == i && Span(s, i + 1, Blanks) == j && Span(s, j, NameChars) == k
  {
    SpanIs(s, 0, i, Blanks);
    SpanIs(s, i + 1, j - i - 1, Blanks);
    SpanIs(s, j, k - j, NameChars);
  }

  /** `MatchLine` once its three spans are known and the line ends clean. */
  lemma LineAt(s: string, i: nat, j: nat, k: nat)
    requires i < j <= k <= |s| && !IsLineTerminator(s[i]) && EndsLine(s, k)
    requires Span(s, 0, Blanks) == i && Span(s, i + 1, Blanks) == j && Span(s, j, NameChars) == k
    ensures MatchLine(s) == Some(LineHead(s[i..k], s[i..i + 1], s[j..k]))
  {
    SpanRun(s, 0, Blanks);
    SpanRun(s, j, NameChars);
  }

  /** A line with a line terminator after the run of letters, digits and
      blanks has no head, whatever precedes it. */
  lemma BrokenLine(lead: string, p: char, gap: string, name: string, rest: string)
    requires forall k :: 0 <= k < |lead| ==> IsRegexSpace(lead[k])
    requires !IsRegexSpace(p) && !IsLineTerminator(p)
    requires forall k :: 0 <= k < |gap| ==> IsRegexSpace(gap[k])
    requires forall k :: 0 <= k < |name| ==> IsNameChar(name[k])
    requires |name| > 0 ==> !IsRegexSpace(name[0])
    requires |rest| > 0 && !IsNameChar(rest[0])
    requires exists k :: 0 <= k < |rest| && IsLineTerminator(rest[k])
    ensures MatchLine(lead + [p] + gap + name + rest).None?
  {
    var s := lead + [p] + gap + name + rest;
    var i, j, k := |lead|, |lead| + 1 + |gap|, |lead| + 1 + |gap| + |name|;
    var t :| 0 <= t < |rest| && IsLineTerminator(rest[t]);
    LineSplit(lead, p, gap, name, rest);
    assert s[k + t] == rest[t];
    LineBroken(s, i, j, k, k + t);
  }

  /** A line terminator after the name leaves the line without a head. */
  lemma LineBroken(s: string, i: nat, j: nat, k: nat, t: nat)
    requires i < j <= k <= t < |s| && IsLineTerminator(s[t])
    requires Span(s, 0, Blanks) == i && Span(s, i + 1, Blanks) == j && Span(s, j, NameChars) == k
    ensures MatchLine(s).None?
  {
  }

  // ---------------------------------------------------------------------------
  // interpret

  /** The unchecked exceptions that escape the earlier `interpret`. */
  datatype Unchecked =
    | NullDereference     // a null definition list, alias list, parameter list or expression
    | InvalidArgument     // `fromPrefix` of a prefix no category has, such as `#`
    | BadExpression       // `PatternSyntaxException`
    | GroupOutOfRange     // `group(1)` of an expression without groups
    | NoMatchState        // `group(0)` of a matcher whose `find` failed
    | Exhausted           // the scan repeats forever and the list outgrows memory

  /** Everything the earlier `interpret` raises: its own `CommandException`
      for an unknown command, or an unchecked exception. */
  datatype Fault = UnknownCommand | Raised(kind: Unchecked)

  /** What `extractCommand` resolved, with the working copy it left. */
  datatype Head = Head(definition: Definition, copy: string)

  /** `extractCommand`: the category is read from group 2, the name is group 3
      trimmed, so blanks inside it stay; once a definition is found every
      occurrence of group 1 is removed from the copy, which is not trimmed
      again. */
  function ExtractCommand(r: Catalogue, copy: string): (res: Result<Option<Head>, Fault>)
    ensures MatchLine(copy).None? ==> res == Success(None)
    ensures res.Success? && res.value.Some? ==>
      MatchLine(copy).Some? &&
      var h := MatchLine(copy).value;
      CategoryFromPrefix(Some(Trim(h.prefix))).Success? &&
      GetCommand(r, CategoryFromPrefix(Some(Trim(h.prefix))).value, Trim(h.name)) == Success(Some(res.value.value.definition)) &&
      res.value.value.copy == RemoveAll(copy, h.command)
    ensures res.Failure? ==> res.error.Raised? && res.error.kind in {InvalidArgument, NullDereference}
  {
    match MatchLine(copy)
    case None => Success(None)
    case Some(h) =>
      match CategoryFromPrefix(Some(Trim(h.prefix)))
      case Failure(_) => Failure(Raised(InvalidArgument))
      case Success(c) =>
        match GetCommand(r, c, Trim(h.name))
        case Failure(_) => Failure(Raised(NullDereference))
        case Success(None) => Success(None)
        case Success(Some(d)) => Success(Some(Head(d, RemoveAll(copy, h.command))))
  }

  /** The values of the groups that took part in a match, in order. */
  function Somes(gs: seq<Option<string>>): (r: seq<string>)
    ensures |r| <= |gs|
    ensures r == [] <==> forall k :: 0 <= k < |gs| ==> gs[k].None?
    ensures forall k :: 0 <= k < |r| ==> exists t :: 0 <= t < |gs| && gs[t] == Some(r[k])
    decreases |gs|
  {
    if |gs| == 0 then []
    else
      var rest := Somes(gs[1..]);
      assert forall t :: 1 <= t < |gs| ==> gs[t] == gs[1..][t - 1];
      if gs[0].None? then rest
      else
        var r := [gs[0].value] + rest;
        assert forall k :: 1 <= k < |r| ==> r[k] == rest[k - 1];
        r
  }

  /** The values loop: every group from index 2 on that took part in the
      match, trimmed, in order. */
  function Present(gs: seq<Option<string>>): (r: seq<string>)
    ensures |r| == |Somes(gs)| && forall k :: 0 <= k < |r| ==> r[k] == Trim(Somes(gs)[k])
  {
    var vs := Somes(gs);
    seq(|vs|, k requires 0 <= k < |vs| => Trim(vs[k]))
  }

  /** What `getNextParameter` accepted, with the copy it left. */
  datatype Taken = Taken(parameter: Parameter, copy: string)

  /** `getNextParameter` from the definition `ps[0]` on. `tag` and `values` are
      the method's locals: a definition whose tag did not fit leaves its group
      1 and its values in them, and the values reach the parameter a later
      definition accepts. A match is accepted when group 1 equals the
      definition's tag exactly. */
  function Scan(e: Engine, ps: seq<ParameterDefinition>, copy: string, tag: Option<string>, values: seq<string>): (res: Result<Option<Taken>, Fault>)
    ensures res.Success? && res.value.Some? ==>
      var p := res.value.value.parameter;
      p.metadata in ps && values <= p.values && res.value.value.copy == Trim(RemoveAll(copy, p.text)) &&
      p.metadata.regExp.Some? && e(p.metadata.regExp.value, copy).Found? &&
      var m := e(p.metadata.regExp.value, copy).m;
      m.whole == p.text && |m.groups| > 0 && m.groups[0] == Some(p.metadata.tag)
    ensures res.Failure? ==> res.error.Raised? && res.error.kind != Exhausted
    decreases |ps|
  {
    if |ps| == 0 then Success(None)
    else
      var d := ps[0];
      if d.regExp.None? then Failure(Raised(NullDereference))
      else
        var found := e(d.regExp.value, copy);
        if found.BadPattern? then Failure(Raised(BadExpression))
        else if found.Found? && |found.m.groups| == 0 then Failure(Raised(GroupOutOfRange))
        else
          var tag' := if found.Found? then found.m.groups[0] else tag;
          var values' := if found.Found? then values + Present(found.m.groups[1..]) else values;
          if tag'.Some? && tag'.value == d.tag then
            if found.NoMatch? then Failure(Raised(NoMatchState))
            else Success(Some(Taken(Parameter(found.m.whole, d, values'), Trim(RemoveAll(copy, found.m.whole)))))
          else Scan(e, ps[1..], copy, tag', values')
  }

  /** `getNextParameter`: the scan starts with a null tag and no values. */
  function GetNextParameter(e: Engine, ps: seq<ParameterDefinition>, copy: string): (res: Result<Option<Taken>, Fault>)
    ensures res.Success? && res.value.Some? ==>
      res.value.value.parameter.metadata in ps &&
      res.value.value.copy == Trim(RemoveAll(copy, res.value.value.parameter.text))
    ensures res.Failure? ==> res.error.Raised? && res.error.kind != Exhausted
  {
    Scan(e, ps, copy, None, [])
  }

  /** `extractParameters`: asks for the next parameter until none is accepted
      or the copy is empty. A null parameter list raises at the first request.
      If an acceptance leaves the copy as long as it was, the copy is the
      same, the next request repeats it forever, and the command's list grows
      until memory runs out. */
  function ExtractParameters(e: Engine, ps: Option<seq<ParameterDefinition>>, copy: string): (res: Result<seq<Parameter>, Fault>)
    ensures res.Success? ==> ps.Some?
    ensures res.Failure? ==> res.error.Raised?
    ensures res.Success? ==> forall k :: 0 <= k < |res.value| ==> res.value[k].metadata in ps.value
    decreases |copy|
  {
    if ps.None? then Failure(Raised(NullDereference))
    else
      var next := GetNextParameter(e, ps.value, copy);
      if next.Failure? then Failure(next.error)
      else if next.value.None? then Success([])
      else
        var p, copy' := next.value.value.parameter, next.value.value.copy;
        if copy' == "" then Success([p])
        else if |copy'| >= |copy| then Failure(Raised(Exhausted))
        else
          var rest := ExtractParameters(e, ps, copy');
          if rest.Failure? then Failure(rest.error)
          else
            DefinedIn(p, rest.value, ps.value);
            Success([p] + rest.value)
  }

  /** Prepending a parameter of `ds` keeps every parameter defined in `ds`. */
  lemma DefinedIn(p: Parameter, rest: seq<Parameter>, ds: seq<ParameterDefinition>)
    requires p.metadata in ds
    requires forall k :: 0 <= k < |rest| ==> rest[k].metadata in ds
    ensures forall k :: 0 <= k < |[p] + rest| ==> ([p] + rest)[k].metadata in ds
  {
    assert forall k :: 1 <= k < |[p] + rest| ==> ([p] + rest)[k] == rest[k - 1];
  }

  /** With a well-behaved engine and no empty tag, an accepted parameter
      strictly shortens the copy: its match holds group 1, which is the tag. */
  lemma {:induction false} ScanShrinks(e: Engine, ps: seq<ParameterDefinition>, copy: string, tag: Option<string>, values: seq<string>)
    requires WellBehaved(e)
    requires forall k :: 0 <= k < |ps| ==> ps[k].tag != ""
    requires Scan(e, ps, copy, tag, values).Success? && Scan(e, ps, copy, tag, values).value.Some?
    ensures |Scan(e, ps, copy, tag, values).value.value.copy| < |copy|
  {
    var taken := Scan(e, ps, copy, tag, values).value.value;
    var d := taken.parameter.metadata;
    var m := e(d.regExp.value, copy).m;
    assert d in ps;
    assert |d.tag| > 0;
    var j :| OccursAt(m.groups[0].value, m.whole, j);
    var i :| OccursAt(m.whole, copy, i);
    RemoveAllShrinks(copy, m.whole, i);
  }

  /** A well-behaved engine over definitions with tags never makes the
      parameter loop run away. */
  lemma {:induction false} NeverExhausted(e: Engine, ps: Option<seq<ParameterDefinition>>, copy: string)
    requires WellBehaved(e)
    requires ps.Some? ==> forall k :: 0 <= k < |ps.value| ==> ps.value[k].tag != ""
    ensures ExtractParameters(e, ps, copy) != Failure(Raised(Exhausted))
    decreases |copy|
  {
    if ps.Some? {
      var next := GetNextParameter(e, ps.value, copy);
      if next.Success? && next.value.Some? {
        ScanShrinks(e, ps.value, copy, None, []);
        if next.value.value.copy != "" {
          NeverExhausted(e, ps, next.value.value.copy);
        }
      }
    }
  }

  /** The command `interpret` builds: the text as typed, the definition,
      and the parameters added in the order found. */
  function Assemble(text: string, d: Definition, ps: seq<Parameter>): (c: Command)
    ensures c.text == text && c.metadata == Some(d)
    ensures |ps| > 0 ==> c.parameters == Some(ps)
    ensures |ps| == 0 ==> c.parameters.None?
  {
    var c0 := SetMetadata(NewCommand(text), Some(d));
    CommandParametersInOrder(c0, ps);
    AddAll(c0, ps)
  }

  /** `interpret`: the copy is the trimmed text; an unmatched line or a name
      no definition answers to is an unknown command; the command keeps the
      text as typed, the definition the head named, and the parameters of
      that definition in the order found. */
  function Interpret(e: Engine, r: Catalogue, text: string): (res: Result<Command, Fault>)
    ensures res == Failure(UnknownCommand) <==> ExtractCommand(r, Trim(text)) == Success(None)
    ensures res.Success? ==>
      res.value.text == text &&
      ExtractCommand(r, Trim(text)).Success? && ExtractCommand(r, Trim(text)).value.Some? &&
      res.value.metadata == Some(ExtractCommand(r, Trim(text)).value.value.definition)
    ensures res.Success? && res.value.parameters.Some? ==>
      var ps := res.value.parameters.value;
      var d := ExtractCommand(r, Trim(text)).value.value.definition;
      |ps| > 0 && d.parameters.Some? && forall k :: 0 <= k < |ps| ==> ps[k].metadata in d.parameters.value
  {
    var head := ExtractCommand(r, Trim(text));
    if head.Failure? then Failure(head.error)
    else if head.value.None? then Failure(UnknownCommand)
    else
      var d := head.value.value.definition;
      var ps := ExtractParameters(e, d.parameters, head.value.value.copy);
      if ps.Failure? then Failure(ps.error)
      else Success(Assemble(text, d, ps.value))
  }

  /** On a filed catalogue, the definition of an interpreted command is one
      filed under its own category. */
  lemma InterpretFiled(e: Engine, r: Catalogue, text: string)
    requires Filed(r)
    requires Interpret(e, r, text).Success?
    ensures var d := Interpret(e, r, text).value.metadata.value;
      d.category in r && d in r[d.category]
  {
    var h := MatchLine(Trim(text)).value;
    var c := CategoryFromPrefix(Some(Trim(h.prefix))).value;
    var d := ExtractCommand(r, Trim(text)).value.value.definition;
    assert d in r[c];
  }
}
