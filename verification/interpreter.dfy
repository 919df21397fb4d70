/** `CommandInterpreter`: turns a line typed on a terminal into a `Command`.
    The command head is matched by the fixed expression
    `^\s*+((\*|/|#|%|.)\s*+([a-zA-Z0-9_]*))`, written out below; the
    per-parameter expressions come from the definitions and are matched by an
    `Engine` the caller supplies. */
module Interpreter {
  import opened Outcomes
  import opened JavaText
  import opened ProtocolTypes
  import opened Commands
  import opened Registry
  import opened Regex

  /** Why `interpret` raised its own `CommandException`. */
  datatype Reason =
    | UnknownCommand      // the head expression found nothing
    | NoDefinition        // anything raised while resolving the head
    | UnableToInterpret   // parameters declared, none found, no protocol known

  /** The unchecked exceptions that escape `interpret` from the parameter scan. */
  datatype Unchecked =
    | NullDereference     // a null parameter list, expression or parameter type
    | BadExpression       // `PatternSyntaxException`
    | GroupOutOfRange     // `group(1)` of an expression without groups
    | NoMatchState        // `group(0)` of a matcher whose `find` failed
    | BadNumeral          // `NumberFormatException` from the value coercion
    | Exhausted           // the scan repeats forever and the list outgrows memory

  /** Everything `interpret` can raise. */
  datatype Fault = Checked(reason: Reason) | Raised(kind: Unchecked)

  // ---------------------------------------------------------------------------
  // The command head.

  /** `group()` and `group(1)` of a successful head match. */
  datatype Head = Head(whole: string, command: string)

  /** Every character of `s` before `k` is a blank. */
  ghost predicate BlanksBefore(s: string, k: int)
    requires 0 <= k <= |s|
  {
    forall t :: 0 <= t < k ==> IsRegexSpace(s[t])
  }

  /** `find` with the head expression: blanks, then one prefix character other
      than a line terminator, blanks again, and the longest run of word
      characters. The possessive stars never give back a blank, so a line made
      only of blanks has no head. */
  function MatchHead(s: string): (h: Option<Head>)
    ensures h.Some? ==> |h.value.command| > 0 && |h.value.command| <= |h.value.whole| <= |s|
    ensures h.Some? ==> h.value.whole == s[..|h.value.whole|]
    ensures h.Some? ==> h.value.command == s[|h.value.whole| - |h.value.command|..|h.value.whole|]
    ensures h.Some? ==> BlanksBefore(s, |h.value.whole| - |h.value.command|)
    ensures h.None? <==> forall k :: 0 <= k < |s| && BlanksBefore(s, k) ==> IsRegexSpace(s[k]) || IsLineTerminator(s[k])
  {
    var i := Span(s, 0, Blanks);
    SpanRun(s, 0, Blanks);
    assert BlanksBefore(s, i);
    if i == |s| || IsLineTerminator(s[i]) then
      assert forall k :: i < k < |s| ==> !BlanksBefore(s, k) by {
        forall k | i < k < |s| ensures !BlanksBefore(s, k) {
          assert !IsRegexSpace(s[i]);
        }
      }
      None
    else
      var j := Span(s, i + 1, Blanks);
      var k := Span(s, j, WordChars);
      Some(Head(s[..k], s[i..k]))
  }

  /** The head of `lead + [p] + gap + name + rest`, where `lead` and `gap` are
      blanks, `p` is the prefix character and `name` the longest run of word
      characters: the whole head and group 1 are what one reads off. */
  lemma HeadOf(lead: string, p: char, gap: string, name: string, rest: string)
    requires forall k :: 0 <= k < |lead| ==> IsRegexSpace(lead[k])
    requires !IsRegexSpace(p) && !IsLineTerminator(p)
    requires forall k :: 0 <= k < |gap| ==> IsRegexSpace(gap[k])
    requires forall k :: 0 <= k < |name| ==> IsWordChar(name[k])
    requires |rest| == 0 || (!IsWordChar(rest[0]) && (|name| == 0 ==> !IsRegexSpace(rest[0])))
    ensures MatchHead(lead + [p] + gap + name + rest) ==
      Some(Head(lead + [p] + gap + name, [p] + gap + name))
  {
    var s := lead + [p] + gap + name + rest;
    var i, j, k := |lead|, |lead| + 1 + |gap|, |lead| + 1 + |gap| + |name|;
    LineShape(s, lead, p, gap, name, rest);
    assert j == |s| || !IsRegexSpace(s[j]);
    HeadAt(s, i, j, k);
  }

  /** The head of a line whose blanks end at `i`, whose prefix is `s[i]`,
      whose gap ends at `j` and whose name ends at `k`. */
  lemma HeadAt(s: string, i: nat, j: nat, k: nat)
    requires i < j <= k <= |s|
    requires forall t :: 0 <= t < i ==> IsRegexSpace(s[t])
    requires !IsRegexSpace(s[i]) && !IsLineTerminator(s[i])
    requires forall t :: i < t < j ==> IsRegexSpace(s[t])
    requires j == |s| || !IsRegexSpace(s[j])
    requires forall t :: j <= t < k ==> IsWordChar(s[t])
    requires k == |s| || !IsWordChar(s[k])
    ensures MatchHead(s) == Some(Head(s[..k], s[i..k]))
  {
    SpanIs(s, 0, i, Blanks);
    SpanIs(s, i + 1, j - i - 1, Blanks);
    SpanIs(s, j, k - j, WordChars);
    HeadOfSpans(s, i, j, k);
  }

  lemma HeadOfSpans(s: string, i: nat, j: nat, k: nat)
    requires i < j <= k <= |s| && !IsLineTerminator(s[i])
    requires Span(s, 0, Blanks) == i && Span(s, i + 1, Blanks) == j && Span(s, j, WordChars) == k
    ensures MatchHead(s) == Some(Head(s[..k], s[i..k]))
  {
  }

  /** What `extractCommand` resolved: the definition and the working copy left
      once the head is removed. */
  datatype Extracted = Extracted(definition: CommandMetadata, copy: string)

  /** `extractCommand`. No head means no definition; once a head is found,
      anything raised while resolving it (an empty or unmapped prefix, a null
      alias list, no definition of that name in that category) becomes a
      `CommandException`. On success every occurrence of the trimmed group 1 is
      removed from the copy, which is trimmed again. */
  function ExtractCommand(r: Registry, copy: string): (res: Result<Option<Extracted>, Fault>)
    ensures res.Success? && res.value.None? <==> MatchHead(copy).None?
    ensures res.Failure? ==> res.error == Checked(NoDefinition)
    ensures res.Success? && res.value.Some? ==>
      var value := Without(Trim(MatchHead(copy).value.whole), ' ');
      && |value| > 0
      && CategoryFromPrefix(Some(value[..1])).Success?
      && GetCommandByCategory(r, CategoryFromPrefix(Some(value[..1])).value, value[1..]) == Success(Some(res.value.value.definition))
      && Named(res.value.value.definition, value[1..])
      && res.value.value.copy == Trim(RemoveAll(copy, Trim(MatchHead(copy).value.command)))
  {
    match MatchHead(copy)
    case None => Success(None)
    case Some(h) =>
      var value := Without(Trim(h.whole), ' ');
      if |value| == 0 then Failure(Checked(NoDefinition))
      else
        match CategoryFromPrefix(Some(value[..1]))
        case Failure(_) => Failure(Checked(NoDefinition))
        case Success(c) =>
          match GetCommandByCategory(r, c, value[1..])
          case Failure(_) => Failure(Checked(NoDefinition))
          case Success(None) => Failure(Checked(NoDefinition))
          case Success(Some(d)) => Success(Some(Extracted(d, Trim(RemoveAll(copy, Trim(h.command))))))
  }

  /** A resolved head always leaves a strictly shorter copy: the trimmed group 1
      is not empty (else the value would be empty) and occurs in the copy. */
  lemma ExtractShrinks(r: Registry, copy: string)
    requires ExtractCommand(r, copy).Success? && ExtractCommand(r, copy).value.Some?
    ensures |ExtractCommand(r, copy).value.value.copy| < |copy|
  {
    HeadRemovalShrinks(copy, MatchHead(copy).value);
  }

  lemma HeadRemovalShrinks(copy: string, h: Head)
    requires MatchHead(copy) == Some(h)
    requires |Without(Trim(h.whole), ' ')| > 0
    ensures |Trim(RemoveAll(copy, Trim(h.command)))| < |copy|
  {
    var n := |h.whole| - |h.command|;
    if |Trim(h.command)| == 0 {
      HeadTrimsEmpty(copy, h, n);
      assert false;
    }
    var p := CommandOccurs(copy, h);
    RemoveAllShrinks(copy, Trim(h.command), p);
  }

  lemma CommandOccurs(copy: string, h: Head) returns (p: nat)
    requires |h.command| <= |h.whole| <= |copy|
    requires h.command == copy[|h.whole| - |h.command|..|h.whole|]
    ensures OccursAt(Trim(h.command), copy, p)
  {
    var u := h.command;
    var n := |h.whole| - |h.command|;
    assert OccursAt(u, copy, n);
    var a := TrimOccurs(u);
    OccursWithin(Trim(u), u, copy, a, n);
    p := n + a;
  }

  /** If group 1 is all trimmable, so is the whole head, and nothing is left
      of the value. */
  lemma HeadTrimsEmpty(copy: string, h: Head, n: nat)
    requires |h.command| <= |h.whole| <= |copy| && n == |h.whole| - |h.command|
    requires h.whole == copy[..|h.whole|] && h.command == copy[n..|h.whole|]
    requires BlanksBefore(copy, n)
    requires |Trim(h.command)| == 0
    ensures Without(Trim(h.whole), ' ') == ""
  {
    TrimEmptyIff(h.command);
    forall k | 0 <= k < |h.whole| ensures IsTrimmable(h.whole[k]) {
      if k < n {
        assert h.whole[k] == copy[k];
        assert IsRegexSpace(copy[k]);
      } else {
        assert h.whole[k] == h.command[k - n];
      }
    }
    TrimEmptyIff(h.whole);
  }

  /** The trimmed string occurs in the string. */
  lemma TrimOccurs(s: string) returns (a: nat)
    ensures OccursAt(Trim(s), s, a)
  {
    var r := Trim(s);
    var i, j :| TrimsTo(s, i, j) && r == s[i..j];
    a := i;
  }

  /** An occurrence inside an occurrence. */
  lemma OccursWithin(t: string, u: string, s: string, a: int, b: int)
    requires OccursAt(t, u, a) && OccursAt(u, s, b)
    ensures OccursAt(t, s, a + b)
  {
    forall k | 0 <= k < |t| ensures s[a + b + k] == t[k] {
      assert t[k] == u[a + k];
      assert u[a + k] == s[b + a + k];
    }
    assert s[a + b..a + b + |t|] == t;
  }

  /** The head as the tests type it: a slash, blanks, a name and, after it,
      anything not continuing the name. The category is NORMAL and the name is
      looked up exactly as typed. */
  lemma ExtractNormal(r: Registry, gap: string, name: string, rest: string)
    requires forall k :: 0 <= k < |gap| ==> gap[k] == ' '
    requires |name| > 0 && forall k :: 0 <= k < |name| ==> IsWordChar(name[k])
    requires |rest| == 0 || !IsWordChar(rest[0])
    ensures var copy := "/" + gap + name + rest;
      var found := GetCommandByCategory(r, Normal, name);
      && (found.Success? && found.value.Some? ==>
            ExtractCommand(r, copy) == Success(Some(Extracted(found.value.value, Trim(RemoveAll(copy, "/" + gap + name))))))
      && (!(found.Success? && found.value.Some?) ==> ExtractCommand(r, copy) == Failure(Checked(NoDefinition)))
  {
    var copy := "/" + gap + name + rest;
    var whole := "/" + gap + name;
    NormalHead(gap, name, rest);
    var value := "/" + name;
    assert value[..1] == "/" && value[1..] == name;
    CategoryFromPrefixOfPrefix(Normal);
    ExtractWith(r, copy, Head(whole, whole), value, Normal);
  }

  /** `extractCommand` once the head, the value read from it and its category
      are known. */
  lemma ExtractWith(r: Registry, copy: string, h: Head, value: string, c: DefaultCommandCategoryType)
    requires MatchHead(copy) == Some(h)
    requires Without(Trim(h.whole), ' ') == value && |value| > 0
    requires CategoryFromPrefix(Some(value[..1])) == Success(c)
    ensures var found := GetCommandByCategory(r, c, value[1..]);
      && (found.Success? && found.value.Some? ==>
            ExtractCommand(r, copy) == Success(Some(Extracted(found.value.value, Trim(RemoveAll(copy, Trim(h.command)))))))
      && (!(found.Success? && found.value.Some?) ==> ExtractCommand(r, copy) == Failure(Checked(NoDefinition)))
  {
  }

  /** The head of such a line, and the value read from it. */
  lemma NormalHead(gap: string, name: string, rest: string)
    requires forall k :: 0 <= k < |gap| ==> gap[k] == ' '
    requires |name| > 0 && forall k :: 0 <= k < |name| ==> IsWordChar(name[k])
    requires |rest| == 0 || !IsWordChar(rest[0])
    ensures MatchHead("/" + gap + name + rest) == Some(Head("/" + gap + name, "/" + gap + name))
    ensures Trim("/" + gap + name) == "/" + gap + name
    ensures Without("/" + gap + name, ' ') == "/" + name
  {
    NormalMatch(gap, name, rest);
    NormalTrim(gap, name);
    WithoutSpaces(gap, name);
  }

  /** The head expression reads the whole slash-and-name head. */
  lemma NormalMatch(gap: string, name: string, rest: string)
    requires forall k :: 0 <= k < |gap| ==> gap[k] == ' '
    requires |name| > 0 && forall k :: 0 <= k < |name| ==> IsWordChar(name[k])
    requires |rest| == 0 || !IsWordChar(rest[0])
    ensures MatchHead("/" + gap + name + rest) == Some(Head("/" + gap + name, "/" + gap + name))
  {
    HeadOf("", '/', gap, name, rest);
    assert "" + ['/'] + gap + name + rest == "/" + gap + name + rest;
    assert "" + ['/'] + gap + name == "/" + gap + name;
    assert ['/'] + gap + name == "/" + gap + name;
  }

  /** A head ending in a word character has nothing to trim. */
  lemma NormalTrim(gap: string, name: string)
    requires |name| > 0 && forall k :: 0 <= k < |name| ==> IsWordChar(name[k])
    ensures Trim("/" + gap + name) == "/" + gap + name
  {
    var whole := "/" + gap + name;
    assert LeadingTrimmable(whole) == 0;
    assert whole[|whole| - 1] == name[|name| - 1];
    assert TrailingTrimmable(whole) == 0;
    assert whole[0..|whole|] == whole;
  }

  /** Removing the blanks between the slash and the name. */
  lemma {:induction false} WithoutSpaces(gap: string, name: string)
    requires forall k :: 0 <= k < |gap| ==> gap[k] == ' '
    requires forall k :: 0 <= k < |name| ==> IsWordChar(name[k])
    ensures Without("/" + gap + name, ' ') == "/" + name
    decreases |gap|
  {
    if |gap| == 0 {
      assert "/" + gap + name == "/" + name;
      WithoutNoSpace(name);
      assert ("/" + name)[1..] == name;
    } else {
      WithoutSpaces(gap[1..], name);
      WithoutDropsSpace(gap[1..] + name);
      assert "/" + gap + name == "/" + ([' '] + (gap[1..] + name));
      assert Without("/" + gap + name, ' ') == "/" + Without([' '] + (gap[1..] + name), ' ') by {
        assert ("/" + gap + name)[1..] == [' '] + (gap[1..] + name);
      }
      assert ("/" + gap[1..] + name)[1..] == gap[1..] + name;
    }
  }

  lemma WithoutDropsSpace(s: string)
    ensures Without([' '] + s, ' ') == Without(s, ' ')
  {
    assert ([' '] + s)[1..] == s;
  }

  lemma {:induction false} WithoutNoSpace(s: string)
    requires forall k :: 0 <= k < |s| ==> IsWordChar(s[k])
    ensures Without(s, ' ') == s
    decreases |s|
  {
    if |s| > 0 {
      WithoutNoSpace(s[1..]);
      assert s == [s[0]] + s[1..];
    }
  }

  // ---------------------------------------------------------------------------
  // The parameter scan.

  /** Position of the last group that took part in the match. */
  function LastPresent(gs: seq<Option<string>>): (r: Option<nat>)
    ensures r.Some? ==> r.value < |gs| && gs[r.value].Some? && forall t :: r.value < t < |gs| ==> gs[t].None?
    ensures r.None? <==> forall k :: 0 <= k < |gs| ==> gs[k].None?
  {
    if |gs| == 0 then None
    else if gs[|gs| - 1].Some? then Some(|gs| - 1)
    else
      var r := LastPresent(gs[..|gs| - 1]);
      assert forall k :: 0 <= k < |gs| - 1 ==> gs[..|gs| - 1][k] == gs[k];
      r
  }

  /** The value loop, over the groups from index 2 on: the last one that took
      part wins, trimmed; when none did, the value left from an earlier
      definition stays. */
  function LastValue(gs: seq<Option<string>>, value: Option<string>): (r: Option<string>)
    ensures (forall k :: 0 <= k < |gs| ==> gs[k].None?) ==> r == value
    ensures (exists k :: 0 <= k < |gs| && gs[k].Some?) ==>
      r.Some? && r == Some(Trim(gs[LastPresent(gs).value].value))
  {
    match LastPresent(gs)
    case None => value
    case Some(k) => Some(Trim(gs[k].value))
  }

  /** What `getNextParameter` answers: nothing, or a parameter together with
      the new working copy and the new value of the interpreter's protocol. */
  datatype Next =
    | NoneAccepted
    | Accepted(parameter: CommandParameter, copy: string, protocol: Option<DefaultCommandProtocol>)

  function CoercionFault(e: CoercionError): Fault {
    match e
    case BadNumber => Raised(BadNumeral)
    case NoType => Raised(NullDereference)
  }

  /** `getNextParameter` from the definition `ps[0]` on. `tag` and `value` are
      the method's locals, which keep what an earlier definition's match left
      in them. */
  function Scan(e: Engine, ps: seq<ParameterMetadata>, copy: string, protocol: Option<DefaultCommandProtocol>,
                tag: Option<string>, value: Option<string>): (res: Result<Next, Fault>)
    ensures res.Success? && res.value.Accepted? ==>
      res.value.parameter.metadata in ps
      && (res.value.parameter.metadata.tag == "" ==>
            res.value.copy == "" && res.value.parameter.text == copy
            && res.value.protocol == (if res.value.parameter.metadata.protocol.Some? then res.value.parameter.metadata.protocol else protocol))
      && (res.value.parameter.metadata.tag != "" ==> res.value.protocol == res.value.parameter.metadata.protocol)
    ensures res.Success? && res.value.Accepted? ==>
      res.value.protocol == protocol || res.value.protocol == res.value.parameter.metadata.protocol
    ensures res.Failure? ==> res.error.Raised? && res.error.kind != Exhausted
    decreases |ps|
  {
    if |ps| == 0 then Success(NoneAccepted)
    else
      var d := ps[0];
      if d.tag == "" then
        match NewParameterWithValue(copy, d, Some(copy))
        case Failure(err) => Failure(CoercionFault(err))
        case Success(p) =>
          assert Trim(RemoveAll(copy, copy)) == "" by {
            if |copy| > 0 {
              RemoveAllSelf(copy);
            }
            assert Trim("") == "";
          }
          Success(Accepted(p, Trim(RemoveAll(copy, copy)), if d.protocol.Some? then d.protocol else protocol))
      else if d.regExp.None? then Failure(Raised(NullDereference))
      else
        var found := e(d.regExp.value, copy);
        if found.BadPattern? then Failure(Raised(BadExpression))
        else if found.Found? && |found.m.groups| == 0 then Failure(Raised(GroupOutOfRange))
        else
          var tag' := if found.Found? then found.m.groups[0] else tag;
          var value' := if found.Found? then LastValue(found.m.groups[1..], value) else value;
          if tag'.None? then Scan(e, ps[1..], copy, protocol, tag', value')
          else
            var t := RemoveAll(tag'.value, "=");
            if t != d.tag then Scan(e, ps[1..], copy, protocol, Some(t), value')
            else if found.NoMatch? then Failure(Raised(NoMatchState))
            else
              match NewParameterWithValue(found.m.whole, d, value')
              case Failure(err) => Failure(CoercionFault(err))
              case Success(p) => Success(Accepted(p, Trim(RemoveAll(copy, found.m.whole)), d.protocol))
  }

  /** `getNextParameter`: the scan starts with both locals null. */
  function GetNextParameter(e: Engine, ps: seq<ParameterMetadata>, copy: string, protocol: Option<DefaultCommandProtocol>): (res: Result<Next, Fault>)
    ensures res.Success? && res.value.Accepted? ==> res.value.parameter.metadata in ps
    ensures res.Success? && res.value.Accepted? ==>
      res.value.protocol == protocol || res.value.protocol == res.value.parameter.metadata.protocol
    ensures res.Failure? ==> res.error.Raised? && res.error.kind != Exhausted
  {
    Scan(e, ps, copy, protocol, None, None)
  }

  /** The first empty-tag definition reached takes the whole remaining copy as
      its text and value, and empties the copy. */
  lemma EmptyTagSwallows(e: Engine, ps: seq<ParameterMetadata>, copy: string, protocol: Option<DefaultCommandProtocol>)
    requires |ps| > 0 && ps[0].tag == "" && ps[0].kind == Some(String)
    ensures GetNextParameter(e, ps, copy, protocol) ==
      Success(Accepted(CommandParameter(copy, ps[0], Text(copy)), "", if ps[0].protocol.Some? then ps[0].protocol else protocol))
  {
  }

  /** With a well-behaved engine an accepted tagged parameter strictly shortens
      the copy: its tag is not empty, so neither is group 1 nor the match, and
      the match occurs in the copy. */
  lemma {:induction false} ScanShrinks(e: Engine, ps: seq<ParameterMetadata>, copy: string, protocol: Option<DefaultCommandProtocol>,
                                       tag: Option<string>, value: Option<string>)
    requires WellBehaved(e)
    requires Scan(e, ps, copy, protocol, tag, value).Success? && Scan(e, ps, copy, protocol, tag, value).value.Accepted?
    ensures var next := Scan(e, ps, copy, protocol, tag, value).value;
      |next.copy| < |copy| || next.copy == ""
    decreases |ps|
  {
    var d := ps[0];
    if d.tag != "" {
      var found := e(d.regExp.value, copy);
      var tag' := if found.Found? then found.m.groups[0] else tag;
      var value' := if found.Found? then LastValue(found.m.groups[1..], value) else value;
      if tag'.None? {
        ScanShrinks(e, ps[1..], copy, protocol, tag', value');
      } else {
        var t := RemoveAll(tag'.value, "=");
        if t != d.tag {
          ScanShrinks(e, ps[1..], copy, protocol, Some(t), value');
        } else {
          var g := tag'.value;
          assert |g| > 0;
          var j :| OccursAt(g, found.m.whole, j);
          var i :| OccursAt(found.m.whole, copy, i);
          RemoveAllShrinks(copy, found.m.whole, i);
        }
      }
    }
  }

  /** What `extractParameters` collected, with the copy and protocol it left. */
  datatype Extraction = Extraction(parameters: seq<CommandParameter>, copy: string, protocol: Option<DefaultCommandProtocol>)

  /** `extractParameters`: asks for the next parameter until none is accepted
      or the copy is empty. A parameter list that is null raises. If an
      acceptance leaves the copy as long as it was, the copy (already trimmed)
      is unchanged, the next round repeats it forever, and the list grows until
      memory runs out. */
  function ExtractParameters(e: Engine, ps: Option<seq<ParameterMetadata>>, copy: string, protocol: Option<DefaultCommandProtocol>): (res: Result<Extraction, Fault>)
    ensures res.Success? ==> ps.Some?
    ensures res.Failure? ==> res.error.Raised?
    ensures res.Success? ==> forall k :: 0 <= k < |res.value.parameters| ==> res.value.parameters[k].metadata in ps.value
    ensures res.Success? && |res.value.parameters| == 0 ==> res.value.protocol == protocol && res.value.copy == copy
    ensures res.Success? ==>
      res.value.protocol == protocol ||
      exists k :: 0 <= k < |res.value.parameters| && res.value.protocol == res.value.parameters[k].metadata.protocol
    decreases |copy|
  {
    if ps.None? then Failure(Raised(NullDereference))
    else
      match GetNextParameter(e, ps.value, copy, protocol)
      case Failure(f) => Failure(f)
      case Success(NoneAccepted) => Success(Extraction([], copy, protocol))
      case Success(Accepted(p, copy', protocol')) =>
        if copy' == "" then
          assert [p][0] == p;
          Success(Extraction([p], copy', protocol'))
        else if |copy'| >= |copy| then Failure(Raised(Exhausted))
        else
          match ExtractParameters(e, ps, copy', protocol')
          case Failure(f) => Failure(f)
          case Success(x) =>
            var all := [p] + x.parameters;
            assert forall k :: 1 <= k < |all| ==> all[k] == x.parameters[k - 1];
            assert x.protocol == protocol || exists k :: 0 <= k < |all| && x.protocol == all[k].metadata.protocol by {
              if x.protocol != protocol' {
                var k :| 0 <= k < |x.parameters| && x.protocol == x.parameters[k].metadata.protocol;
                assert all[k + 1] == x.parameters[k];
              } else if protocol' != protocol {
                assert all[0] == p;
              }
            }
            Success(Extraction([p] + x.parameters, x.copy, x.protocol))
  }

  /** A well-behaved engine never makes the parameter loop run away. */
  lemma {:induction false} NeverExhausted(e: Engine, ps: Option<seq<ParameterMetadata>>, copy: string, protocol: Option<DefaultCommandProtocol>)
    requires WellBehaved(e)
    ensures ExtractParameters(e, ps, copy, protocol) != Failure(Raised(Exhausted))
    decreases |copy|
  {
    if ps.Some? {
      var next := GetNextParameter(e, ps.value, copy, protocol);
      assert next == Scan(e, ps.value, copy, protocol, None, None);
      if next.Success? && next.value.Accepted? {
        ScanShrinks(e, ps.value, copy, protocol, None, None);
        if next.value.copy != "" {
          assert |next.value.copy| < |copy|;
          NeverExhausted(e, ps, next.value.copy, next.value.protocol);
          var rest := ExtractParameters(e, ps, next.value.copy, next.value.protocol);
          if rest.Failure? {
            assert ExtractParameters(e, ps, copy, protocol) == Failure(rest.error);
          }
        }
      }
    }
  }

  // ---------------------------------------------------------------------------
  // interpret

  /** The end of `interpret`: raise when the definition declares parameters,
      none were found and no protocol is known; otherwise take the
      definition's protocol when no parameter was found or the running one is
      null, and build the command from the text as typed, with the parameters
      in the order they were found. */
  function Assemble(d: CommandMetadata, ex: Extraction, text: string): (res: Result<Command, Fault>)
    requires d.parameters.Some?
    ensures res.Failure? <==> |d.parameters.value| > 0 && |ex.parameters| == 0 && ex.protocol.None?
    ensures res.Failure? ==> res.error == Checked(UnableToInterpret)
    ensures res.Success? ==> res.value.text == text && res.value.metadata == Some(d)
    ensures res.Success? ==> res.value.parameters == (if |ex.parameters| == 0 then None else Some(ex.parameters))
    ensures res.Success? ==> res.value.protocol == if |ex.parameters| == 0 || ex.protocol.None? then d.protocol else ex.protocol
  {
    if |d.parameters.value| > 0 && |ex.parameters| == 0 && ex.protocol.None? then Failure(Checked(UnableToInterpret))
    else
      var protocol := if |ex.parameters| == 0 || ex.protocol.None? then d.protocol else ex.protocol;
      assert [] + ex.parameters == ex.parameters;
      Success(AddCommandParameters(SetMetadata(NewCommand(protocol, text), Some(d)), ex.parameters))
  }

  /** `interpret`. The copy is the trimmed text; the command keeps the text as
      typed. */
  function Interpret(e: Engine, r: Registry, text: string): (res: Result<Command, Fault>)
    ensures res.Success? ==> res.value.text == text && res.value.metadata.Some?
    ensures res.Success? ==> exists i :: 0 <= i < |r| && r[i].definition == res.value.metadata.value
    ensures res == Failure(Checked(UnknownCommand)) <==> MatchHead(Trim(text)).None?
  {
    var head := ExtractCommand(r, Trim(text));
    if head.Failure? then Failure(head.error)
    else if head.value.None? then Failure(Checked(UnknownCommand))
    else
      var d := head.value.value.definition;
      var ex := ExtractParameters(e, d.parameters, head.value.value.copy, d.protocol);
      if ex.Failure? then Failure(ex.error)
      else Assemble(d, ex.value, text)
  }

  /** What a successful `interpret` promises about its command: the parameters
      come from the definition; with none found the protocol is the
      definition's, and it is known whenever the definition declares
      parameters; otherwise it is the definition's or that of a found
      parameter. */
  lemma InterpretShape(e: Engine, r: Registry, text: string)
    requires Interpret(e, r, text).Success?
    ensures var c := Interpret(e, r, text).value;
      var d := c.metadata.value;
      && d.parameters.Some?
      && (c.parameters.None? ==> c.protocol == d.protocol)
      && (c.parameters.None? && |d.parameters.value| > 0 ==> c.protocol.Some?)
      && (c.parameters.Some? ==> forall k :: 0 <= k < |c.parameters.value| ==> c.parameters.value[k].metadata in d.parameters.value)
      && (c.parameters.Some? ==>
            c.protocol == d.protocol ||
            exists k :: 0 <= k < |c.parameters.value| && c.protocol == c.parameters.value[k].metadata.protocol)
  {
    var x := ExtractCommand(r, Trim(text)).value.value;
    var d := x.definition;
    var ex := ExtractParameters(e, d.parameters, x.copy, d.protocol).value;
    assert Interpret(e, r, text) == Assemble(d, ex, text);
  }

  /** `interpret` of blank text finds no command. */
  lemma InterpretBlank(e: Engine, r: Registry, text: string)
    requires forall k :: 0 <= k < |text| ==> IsTrimmable(text[k])
    ensures Interpret(e, r, text) == Failure(Checked(UnknownCommand))
  {
    TrimEmptyIff(text);
  }

  /** A normal line whose name the category lookup finds nothing for fails
      with `Checked(NoDefinition)`, before any parameter is looked at. */
  lemma InterpretUnfound(e: Engine, r: Registry, text: string, gap: string, name: string, rest: string)
    requires Trim(text) == "/" + gap + name + rest
    requires forall k :: 0 <= k < |gap| ==> gap[k] == ' '
    requires |name| > 0 && forall k :: 0 <= k < |name| ==> IsWordChar(name[k])
    requires |rest| == 0 || !IsWordChar(rest[0])
    requires GetCommandByCategory(r, Normal, name) == Success(None)
    ensures Interpret(e, r, text) == Failure(Checked(NoDefinition))
  {
    ExtractNormal(r, gap, name, rest);
  }

  /** The typed head names no definition of the NORMAL category: `interpret`
      raises, whatever follows the name. */
  lemma InterpretUndefined(e: Engine, r: Registry, text: string, gap: string, name: string, rest: string)
    requires WellFormed(r) && forall i :: 0 <= i < |r| ==> r[i].definition.aliases.Some?
    requires Trim(text) == "/" + gap + name + rest
    requires forall k :: 0 <= k < |gap| ==> gap[k] == ' '
    requires |name| > 0 && forall k :: 0 <= k < |name| ==> IsWordChar(name[k])
    requires |rest| == 0 || !IsWordChar(rest[0])
    requires forall i :: 0 <= i < |r| ==> !(Selected(r[i].definition, ProtocolCategory, Normal) && Named(r[i].definition, name))
    ensures Interpret(e, r, text) == Failure(Checked(NoDefinition))
  {
    ExtractNormal(r, gap, name, rest);
    GetCommandByCategoryIff(r, Normal, name);
  }

  /** Every tagged definition of `ps` has an expression the engine compiles,
      with at least one group, whose group 1 (without `=`) is that
      definition's own tag whenever it takes part; and no definition's type can
      make the coercion fail. */
  ghost predicate Faithful(e: Engine, ps: seq<ParameterMetadata>) {
    forall k :: 0 <= k < |ps| ==>
      (ps[k].kind == Some(String) || ps[k].kind == Some(Boolean))
      && (ps[k].tag != "" ==> ps[k].regExp.Some? && forall s :: FaithfulMatch(e(ps[k].regExp.value, s), ps[k].tag))
  }

  predicate FaithfulMatch(m: MatchResult, tag: string) {
    !m.BadPattern? && (m.Found? ==> |m.m.groups| > 0 && (m.m.groups[0].Some? ==> RemoveAll(m.m.groups[0].value, "=") == tag))
  }

  /** With faithful expressions the scan never raises: a stale tag never
      survives, because a definition's group 1 is either its own tag, which
      is accepted at once, or absent. */
  lemma {:induction false} ScanSafe(e: Engine, ps: seq<ParameterMetadata>, copy: string, protocol: Option<DefaultCommandProtocol>, value: Option<string>)
    requires Faithful(e, ps)
    ensures Scan(e, ps, copy, protocol, None, value).Success?
    decreases |ps|
  {
    if |ps| > 0 {
      var d := ps[0];
      assert d.kind == Some(String) || d.kind == Some(Boolean);
      assert Faithful(e, ps[1..]) by {
        forall k | 0 <= k < |ps[1..]| ensures ps[1..][k] == ps[k + 1] { }
      }
      if d.tag != "" {
        var found := e(d.regExp.value, copy);
        assert FaithfulMatch(found, d.tag);
        var value' := if found.Found? then LastValue(found.m.groups[1..], value) else value;
        ScanSafe(e, ps[1..], copy, protocol, value');
      }
    }
  }

  /** With a well-behaved engine and faithful expressions the parameter loop
      ends without raising. */
  lemma {:induction false} ExtractSafe(e: Engine, ps: seq<ParameterMetadata>, copy: string, protocol: Option<DefaultCommandProtocol>)
    requires WellBehaved(e) && Faithful(e, ps)
    ensures ExtractParameters(e, Some(ps), copy, protocol).Success?
    decreases |copy|
  {
    ScanSafe(e, ps, copy, protocol, None);
    NeverExhausted(e, Some(ps), copy, protocol);
    var next := GetNextParameter(e, ps, copy, protocol);
    if next.value.Accepted? && next.value.copy != "" && |next.value.copy| < |copy| {
      ExtractSafe(e, ps, next.value.copy, next.value.protocol);
    }
  }

  /** A head that resolves to a definition with a command-level protocol and
      faithful parameters always gives a command carrying a protocol. */
  lemma InterpretSucceeds(e: Engine, r: Registry, text: string)
    requires ExtractCommand(r, Trim(text)).Success? && ExtractCommand(r, Trim(text)).value.Some?
    requires var d := ExtractCommand(r, Trim(text)).value.value.definition;
      d.protocol.Some? && d.parameters.Some? && Faithful(e, d.parameters.value)
    requires WellBehaved(e)
    ensures Interpret(e, r, text).Success? && Interpret(e, r, text).value.protocol.Some?
    ensures Interpret(e, r, text).value.metadata == Some(ExtractCommand(r, Trim(text)).value.value.definition)
  {
    var x := ExtractCommand(r, Trim(text)).value.value;
    var d := x.definition;
    ExtractSafe(e, d.parameters.value, x.copy, d.protocol);
    InterpretVia(e, r, text, x);
    AssembleKnown(d, ExtractParameters(e, d.parameters, x.copy, d.protocol).value, text);
  }

  /** `interpret` once the head is resolved and the parameters extracted. */
  lemma InterpretVia(e: Engine, r: Registry, text: string, x: Extracted)
    requires ExtractCommand(r, Trim(text)) == Success(Some(x))
    requires ExtractParameters(e, x.definition.parameters, x.copy, x.definition.protocol).Success?
    ensures Interpret(e, r, text) == Assemble(x.definition, ExtractParameters(e, x.definition.parameters, x.copy, x.definition.protocol).value, text)
  {
  }

  /** A definition with a protocol and a parameter list assembles a command
      carrying a protocol whenever no parameter was found with the
      definition's protocol. */
  lemma AssembleKnown(d: CommandMetadata, ex: Extraction, text: string)
    requires d.protocol.Some? && d.parameters.Some?
    requires |ex.parameters| == 0 ==> ex.protocol == d.protocol
    ensures Assemble(d, ex, text).Success? && Assemble(d, ex, text).value.protocol.Some?
    ensures Assemble(d, ex, text).value.metadata == Some(d)
  {
  }

  /** A NORMAL head naming a definition with a command-level protocol and
      faithful parameters gives a command carrying a protocol. */
  lemma InterpretNormal(e: Engine, r: Registry, text: string, gap: string, name: string, rest: string, d: CommandMetadata)
    requires Trim(text) == "/" + gap + name + rest
    requires forall k :: 0 <= k < |gap| ==> gap[k] == ' '
    requires |name| > 0 && forall k :: 0 <= k < |name| ==> IsWordChar(name[k])
    requires |rest| == 0 || !IsWordChar(rest[0])
    requires GetCommandByCategory(r, Normal, name) == Success(Some(d))
    requires d.protocol.Some? && d.parameters.Some? && Faithful(e, d.parameters.value)
    requires WellBehaved(e)
    ensures Interpret(e, r, text).Success? && Interpret(e, r, text).value.protocol.Some?
    ensures Interpret(e, r, text).value.metadata == Some(d)
  {
    ExtractNormal(r, gap, name, rest);
    InterpretSucceeds(e, r, text);
  }
}
