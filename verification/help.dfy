/** `HelpCommandProcessor`: the `help` command of the earlier generation. What
    it writes to the terminal's pane is returned as the sequence of pieces it
    appends, colours aside. The processor is bound to the HELP protocol. */
module Help {
  import opened Outcomes
  import opened JavaText
  import opened LegacyTypes
  import opened Legacy
  import ProtocolTypes

  /** `COMMAND_PROTOCOL_TYPE`: the processor is registered for the HELP
      constant of the newer default protocols. */
  const HelpProtocol: ProtocolTypes.DefaultCommandProtocol := ProtocolTypes.DefaultCommandProtocol.Help

  /** The processor's protocol is the one `fromString` finds for `help` in
      any letter case, a SYSTEM command of the NORMAL category. */
  lemma HelpProtocolFacts(spelling: string)
    requires EqualsIgnoreCase(spelling, "help")
    ensures ProtocolTypes.ProtocolFromString(Some(spelling)) == Success(HelpProtocol)
    ensures ProtocolTypes.ProtocolGroup(HelpProtocol) == ProtocolTypes.DefaultCommandGroupType.System
    ensures ProtocolTypes.ProtocolCategory(HelpProtocol) == ProtocolTypes.DefaultCommandCategoryType.Normal
  {
    assert EqualsIgnoreCase(spelling, ProtocolTypes.ProtocolName(HelpProtocol)) by {
      EqualsIgnoreCaseEquivalence(spelling, "help", "HELP");
    }
    ProtocolTypes.ProtocolFromStringName(HelpProtocol, spelling);
  }

  /** The pieces appended to the pane, and whether the processing then raised
      `NullPointerException`; text appended before the exception stays. */
  datatype Printed = Printed(pieces: seq<string>, raised: bool)

  const Nothing: Printed := Printed([], false)

  /** Writing `a` and then `b`: nothing of `b` once `a` has raised. */
  function Then(a: Printed, b: Printed): (r: Printed)
    ensures a.raised ==> r == a
    ensures !a.raised ==> r.pieces == a.pieces + b.pieces && r.raised == b.raised
  {
    if a.raised then a else Printed(a.pieces + b.pieces, b.raised)
  }

  /** Writing three parts in a row does not depend on how they are grouped. */
  lemma ThenAssociative(a: Printed, b: Printed, c: Printed)
    ensures Then(Then(a, b), c) == Then(a, Then(b, c))
    ensures Then(Nothing, a) == a && Then(a, Nothing) == a
  {
    if !a.raised && !b.raised {
      assert (a.pieces + b.pieces) + c.pieces == a.pieces + (b.pieces + c.pieces);
    }
    assert [] + a.pieces == a.pieces && a.pieces + [] == a.pieces;
  }

  const NullCommand: string := "Command cannot be null!\n"
  const Rule: string := "-------------------- \n"

  // ---------------------------------------------------------------------------
  // The listing of every definition.

  /** One line of the listing: the name left-justified in fifteen columns
      between brackets, then the description. */
  function ListingLine(d: Definition): seq<string> {
    [" [", PadRight(d.name, 15), "] ", Show(d.description) + "\n"]
  }

  function ListingLines(definitions: seq<Definition>): seq<string>
    decreases |definitions|
  {
    if |definitions| == 0 then [] else ListingLines(definitions[..|definitions| - 1]) + ListingLine(definitions[|definitions| - 1])
  }

  /** `extractHelpForAllCommands`. */
  function HelpForAll(definitions: seq<Definition>): (r: Printed)
    ensures !r.raised && |r.pieces| == 1 + 4 * |definitions|
    ensures r.pieces[0] == "Available commands are: \n"
  {
    ListingSize(definitions);
    Printed(["Available commands are: \n"] + ListingLines(definitions), false)
  }

  lemma {:induction false} ListingSize(definitions: seq<Definition>)
    ensures |ListingLines(definitions)| == 4 * |definitions|
    decreases |definitions|
  {
    if |definitions| > 0 {
      ListingSize(definitions[..|definitions| - 1]);
    }
  }

  /** The listing has one block of four pieces per definition, in order: the
      `k`-th block shows the `k`-th definition's name padded to at least
      fifteen characters, and its description. */
  lemma {:induction false} ListingBlocks(definitions: seq<Definition>, k: nat)
    requires k < |definitions|
    ensures |ListingLines(definitions)| == 4 * |definitions|
    ensures ListingLines(definitions)[4 * k..4 * k + 4] == ListingLine(definitions[k])
    ensures |ListingLines(definitions)[4 * k + 1]| >= 15
    ensures ListingLines(definitions)[4 * k + 1][..|definitions[k].name|] == definitions[k].name
    decreases |definitions|
  {
    var n := |definitions|;
    var init := definitions[..n - 1];
    ListingSize(definitions);
    ListingSize(init);
    var lines := ListingLines(definitions);
    var front, last := ListingLines(init), ListingLine(definitions[n - 1]);
    assert lines == front + last;
    if k < n - 1 {
      ListingBlocks(init, k);
      ShiftSlice(front, last, 0, 0);
      PrefixSlice(front, last, 4 * k, 4 * k + 4);
    } else {
      ShiftSlice(front, last, 0, 4);
    }
    assert lines[4 * k + 1] == lines[4 * k..4 * k + 4][1];
  }

  // ---------------------------------------------------------------------------
  // The listing of the categories.

  function CategoryLines(cs: seq<CommandCategoryType>): seq<string>
    decreases |cs|
  {
    if |cs| == 0 then [] else [" [", CategoryPrefix(cs[0]), "] ", CategoryName(cs[0]) + "\n"] + CategoryLines(cs[1..])
  }

  /** `extractCommandCategories`: every category constant with its prefix.
      Reading the category through the command's definition fails on a null
      definition, after the heading. */
  function HelpForCategories(c: Command): (r: Printed)
    ensures r.raised <==> c.metadata.None?
    ensures |r.pieces| > 0 && r.pieces[0] == "Available command categories are: \n"
    ensures !r.raised ==> |r.pieces| == 1 + 4 * |CategoryValues|
  {
    if c.metadata.None? then Printed(["Available command categories are: \n"], true)
    else
      CategoryLinesSize(CategoryValues);
      Printed(["Available command categories are: \n"] + CategoryLines(CategoryValues), false)
  }

  lemma {:induction false} CategoryLinesSize(cs: seq<CommandCategoryType>)
    ensures |CategoryLines(cs)| == 4 * |cs|
    decreases |cs|
  {
    if |cs| > 0 {
      CategoryLinesSize(cs[1..]);
    }
  }

  /** The category listing has one block of four pieces per constant, in
      declaration order: its prefix between brackets, then its name. */
  lemma {:induction false} CategoryBlocks(cs: seq<CommandCategoryType>, k: nat)
    requires k < |cs|
    ensures |CategoryLines(cs)| == 4 * |cs|
    ensures CategoryLines(cs)[4 * k..4 * k + 4] == [" [", CategoryPrefix(cs[k]), "] ", CategoryName(cs[k]) + "\n"]
    decreases |cs|
  {
    CategoryLinesSize(cs);
    var block: seq<string> := [" [", CategoryPrefix(cs[0]), "] ", CategoryName(cs[0]) + "\n"];
    var rest := CategoryLines(cs[1..]);
    assert CategoryLines(cs) == block + rest;
    if k > 0 {
      CategoryBlocks(cs[1..], k - 1);
      ShiftSlice(block, rest, 4 * (k - 1), 4 * (k - 1) + 4);
    } else {
      ShiftSlice(block, rest, 0, 0);
    }
  }

  /** A slice of the first of two lists written one after the other. */
  lemma PrefixSlice<T>(a: seq<T>, b: seq<T>, i: nat, j: nat)
    requires i <= j <= |a|
    ensures (a + b)[i..j] == a[i..j]
  {
  }

  /** A slice of the second of two lists written one after the other. */
  lemma ShiftSlice<T>(a: seq<T>, b: seq<T>, i: nat, j: nat)
    requires i <= j <= |b|
    ensures (a + b)[|a| + i..|a| + j] == b[i..j]
    ensures (a + b)[..|a|] == a
  {
  }

  /** The listing shows the prefixes `*`, `/`, `/`, `%` and `.`: NORMAL and
      ADMINISTRATION both appear with `/`. */
  lemma CategoryListing()
    ensures var lines := CategoryLines(CategoryValues);
      |lines| == 20 && lines[1] == "*" && lines[5] == "/" && lines[9] == "/" && lines[13] == "%" && lines[17] == "."
  {
    var lines := CategoryLines(CategoryValues);
    CategoryBlocks(CategoryValues, 0);
    assert lines[1] == lines[0..4][1];
    CategoryBlocks(CategoryValues, 1);
    assert lines[5] == lines[4..8][1];
    CategoryBlocks(CategoryValues, 2);
    assert lines[9] == lines[8..12][1];
    CategoryBlocks(CategoryValues, 3);
    assert lines[13] == lines[12..16][1];
    CategoryBlocks(CategoryValues, 4);
    assert lines[17] == lines[16..20][1];
  }

  // ---------------------------------------------------------------------------
  // The detailed help of one command.

  /** `getCommandDefinitionByName`: the first definition whose name equals the
      argument ignoring case. A null argument equals no name. */
  function DefinitionByName(definitions: seq<Definition>, name: Option<string>): (r: Option<Definition>)
    ensures r.Some? ==> (name.Some? && EqualsIgnoreCase(r.value.name, name.value) &&
      exists i :: 0 <= i < |definitions| && definitions[i] == r.value &&
        forall k :: 0 <= k < i ==> !EqualsIgnoreCase(definitions[k].name, name.value))
    ensures r.None? <==> name.None? || forall k :: 0 <= k < |definitions| ==> !EqualsIgnoreCase(definitions[k].name, name.value)
    decreases |definitions|
  {
    if name.None? || |definitions| == 0 then None
    else if EqualsIgnoreCase(definitions[0].name, name.value) then Some(definitions[0])
    else
      var r := DefinitionByName(definitions[1..], name);
      assert forall k :: 1 <= k < |definitions| ==> definitions[k] == definitions[1..][k - 1];
      if r.Some? then
        var i :| 0 <= i < |definitions[1..]| && definitions[1..][i] == r.value &&
          forall k :: 0 <= k < i ==> !EqualsIgnoreCase(definitions[1..][k].name, name.value);
        assert definitions[i + 1] == r.value;
        r
      else r
  }

  /** A name asked for in any letter case finds the definition spelt that way,
      unless an earlier definition has the same name up to case. */
  lemma DefinitionByNameFinds(definitions: seq<Definition>, i: nat, name: string)
    requires i < |definitions| && EqualsIgnoreCase(definitions[i].name, name)
    requires forall k :: 0 <= k < i ==> !EqualsIgnoreCase(definitions[k].name, name)
    ensures DefinitionByName(definitions, Some(name)) == Some(definitions[i])
  {
    var r := DefinitionByName(definitions, Some(name));
    if r.Some? {
      var j :| 0 <= j < |definitions| && definitions[j] == r.value &&
        forall k :: 0 <= k < j ==> !EqualsIgnoreCase(definitions[k].name, name);
      assert j == i;
    }
  }

  function AliasLines(aliases: seq<string>): seq<string>
    decreases |aliases|
  {
    if |aliases| == 0 then [] else ["|   ", aliases[0] + "\n"] + AliasLines(aliases[1..])
  }

  function ExampleLines(examples: seq<string>): seq<string>
    decreases |examples|
  {
    if |examples| == 0 then [] else ["     |_ ", examples[0] + "\n"] + ExampleLines(examples[1..])
  }

  /** One parameter: name, description and expression, then its examples or
      the line saying there are none. */
  function ParameterLines(p: ParameterDefinition): seq<string> {
    [" - '", p.name, "' - ", p.description + "\n", " |__ RegExp   : ", Show(p.regExp) + "\n"] +
    (if p.examples.Some? && |p.examples.value| > 0 then [" |__ Examples :\n"] + ExampleLines(p.examples.value)
     else [" |__ No example defined!\n"])
  }

  function ParametersLines(ps: seq<ParameterDefinition>): seq<string>
    decreases |ps|
  {
    if |ps| == 0 then [] else ParameterLines(ps[0]) + ParametersLines(ps[1..])
  }

  /** The opening of the detailed help. */
  function Banner(d: Definition): seq<string> {
    [" \n", Rule, "Help on command: '", d.name, "' - ", Show(d.description) + "\n", " \n"]
  }

  /** Where the parameter part of the detailed help starts: after the banner
      and the alias part. */
  function ParametersAt(aliases: seq<string>): nat {
    7 + (if |aliases| > 0 then 1 + 2 * |aliases| else 1)
  }

  /** The detailed help of a found definition: a banner, the aliases or the
      line saying there are none, the parameters or the line saying there
      are none, and a closing rule. A null alias list or parameter list
      raises when it is reached. */
  function DetailedHelp(d: Definition): (r: Printed)
    ensures r.raised <==> d.aliases.None? || d.parameters.None?
    ensures |r.pieces| >= 7 && r.pieces[..7] == Banner(d)
    ensures d.aliases.Some? ==> (|r.pieces| >= 8 &&
      r.pieces[7] == (if |d.aliases.value| == 0 then "No alias defined!\n" else "Aliases:\n"))
    ensures !r.raised ==> (|r.pieces| >= ParametersAt(d.aliases.value) + 3 && r.pieces[|r.pieces| - 2..] == [Rule, " \n"] &&
      r.pieces[ParametersAt(d.aliases.value)] == (if |d.parameters.value| == 0 then "No parmater defined!\n" else "Parameters:\n"))
  {
    var banner := Banner(d);
    if d.aliases.None? then Printed(banner, true)
    else
      var aliasPart := AliasPart(d.aliases.value);
      if d.parameters.None? then Printed(banner + aliasPart, true)
      else
        var parameterPart := ParameterPart(d.parameters.value);
        var pieces := banner + aliasPart + parameterPart + [Rule, " \n"];
        assert pieces[ParametersAt(d.aliases.value)] == parameterPart[0];
        Printed(pieces, false)
  }

  /** The alias part: its heading and a line pair per alias, or the line
      saying there are none. */
  function AliasPart(aliases: seq<string>): (r: seq<string>)
    ensures |r| == ParametersAt(aliases) - 7 && |r| > 0
    ensures r[0] == (if |aliases| == 0 then "No alias defined!\n" else "Aliases:\n")
    ensures |aliases| > 0 ==> r[1..] == AliasLines(aliases)
  {
    AliasLinesSize(aliases);
    if |aliases| > 0 then ["Aliases:\n"] + AliasLines(aliases) else ["No alias defined!\n"]
  }

  /** The parameter part: its heading and each parameter's block, or the line
      saying there are none. */
  function ParameterPart(ps: seq<ParameterDefinition>): (r: seq<string>)
    ensures |r| > 0
    ensures r[0] == (if |ps| == 0 then "No parmater defined!\n" else "Parameters:\n")
    ensures |ps| > 0 ==> r[1..] == ParametersLines(ps)
  {
    if |ps| > 0 then ["Parameters:\n"] + ParametersLines(ps) else ["No parmater defined!\n"]
  }

  lemma {:induction false} AliasLinesSize(aliases: seq<string>)
    ensures |AliasLines(aliases)| == 2 * |aliases|
    decreases |aliases|
  {
    if |aliases| > 0 {
      AliasLinesSize(aliases[1..]);
    }
  }

  /** Each alias appears on its own line, in order, after a bar. */
  lemma {:induction false} AliasLinesShow(aliases: seq<string>, k: nat)
    requires k < |aliases|
    ensures |AliasLines(aliases)| == 2 * |aliases|
    ensures AliasLines(aliases)[2 * k] == "|   " && AliasLines(aliases)[2 * k + 1] == aliases[k] + "\n"
    decreases |aliases|
  {
    if |aliases| > 1 {
      if k > 0 {
        AliasLinesShow(aliases[1..], k - 1);
      } else {
        AliasLinesShow(aliases[1..], 0);
      }
    }
  }

  /** Each example appears on its own line, in order, after an indented bar. */
  lemma {:induction false} ExampleLinesShow(examples: seq<string>, k: nat)
    requires k < |examples|
    ensures |ExampleLines(examples)| == 2 * |examples|
    ensures ExampleLines(examples)[2 * k] == "     |_ " && ExampleLines(examples)[2 * k + 1] == examples[k] + "\n"
    decreases |examples|
  {
    if |examples| > 1 {
      if k > 0 {
        ExampleLinesShow(examples[1..], k - 1);
      } else {
        ExampleLinesShow(examples[1..], 0);
      }
    }
  }

  /** The parameter lines of two lists written one after the other. */
  lemma {:induction false} ParametersAppend(a: seq<ParameterDefinition>, b: seq<ParameterDefinition>)
    ensures ParametersLines(a + b) == ParametersLines(a) + ParametersLines(b)
    decreases |a|
  {
    if |a| == 0 {
      assert a + b == b;
    } else {
      assert (a + b)[0] == a[0] && (a + b)[1..] == a[1..] + b;
      ParametersAppend(a[1..], b);
    }
  }

  /** The parameter part has one block per parameter, in order: the block of
      the `k`-th parameter starts after those of the parameters before it and
      shows its name, its description and its expression, then its examples
      or the line saying there are none. */
  lemma ParametersBlocks(ps: seq<ParameterDefinition>, k: nat)
    requires k < |ps|
    ensures var at := |ParametersLines(ps[..k])|;
      var p := ps[k];
      var lines := ParametersLines(ps);
      |lines| >= at + 7 &&
      lines[at..at + 6] == [" - '", p.name, "' - ", p.description + "\n", " |__ RegExp   : ", Show(p.regExp) + "\n"] &&
      (if p.examples.Some? && |p.examples.value| > 0 then
         |lines| >= at + 7 + 2 * |p.examples.value| &&
         lines[at + 6] == " |__ Examples :\n" && lines[at + 7..at + 7 + 2 * |p.examples.value|] == ExampleLines(p.examples.value)
       else lines[at + 6] == " |__ No example defined!\n")
  {
    var p := ps[k];
    var before, block := ParametersLines(ps[..k]), ParameterLines(p);
    ParametersSplit(ps, k);
    ParameterLinesShape(p);
    var lines := ParametersLines(ps);
    var at := |before|;
    var window := lines[at..at + |block|];
    assert window == block;
    assert lines[at..at + 6] == window[..6];
    assert lines[at + 6] == window[6];
    if p.examples.Some? && |p.examples.value| > 0 {
      assert lines[at + 7..at + 7 + 2 * |p.examples.value|] == window[7..];
    }
  }

  /** The lines of a list are those before a parameter, then its own, then
      those after it. */
  lemma ParametersSplit(ps: seq<ParameterDefinition>, k: nat)
    requires k < |ps|
    ensures ParametersLines(ps) == ParametersLines(ps[..k]) + ParameterLines(ps[k]) + ParametersLines(ps[k + 1..])
  {
    var p, pre, post := ps[k], ps[..k], ps[k + 1..];
    AroundIndex(ps, k);
    ParametersAppend(pre, [p] + post);
    ParametersAppend([p], post);
    ParametersOne(p);
    var a, b, c := ParametersLines(pre), ParameterLines(p), ParametersLines(post);
    assert a + (b + c) == a + b + c;
  }

  /** A list is what comes before an index, the element there, and what
      comes after it. */
  lemma AroundIndex<T>(s: seq<T>, k: nat)
    requires k < |s|
    ensures s == s[..k] + ([s[k]] + s[k + 1..])
  {
    assert s[k..] == [s[k]] + s[k + 1..];
  }

  /** A list of one parameter shows that parameter's block. */
  lemma ParametersOne(p: ParameterDefinition)
    ensures ParametersLines([p]) == ParameterLines(p)
  {
    assert [p][1..] == [];
    assert ParametersLines([p]) == ParameterLines(p) + ParametersLines([]);
  }

  /** Where a parameter's name, description, expression and examples sit in
      its block. */
  lemma ParameterLinesShape(p: ParameterDefinition)
    ensures var block := ParameterLines(p);
      |block| >= 7 &&
      block[..6] == [" - '", p.name, "' - ", p.description + "\n", " |__ RegExp   : ", Show(p.regExp) + "\n"] &&
      (if p.examples.Some? && |p.examples.value| > 0 then
         |block| == 7 + 2 * |p.examples.value| && block[6] == " |__ Examples :\n" && block[7..] == ExampleLines(p.examples.value)
       else |block| == 7 && block[6] == " |__ No example defined!\n")
  {
    if p.examples.Some? && |p.examples.value| > 0 {
      ExampleLinesSize(p.examples.value);
    }
  }

  lemma {:induction false} ExampleLinesSize(examples: seq<string>)
    ensures |ExampleLines(examples)| == 2 * |examples|
    decreases |examples|
  {
    if |examples| > 0 {
      ExampleLinesSize(examples[1..]);
    }
  }

  /** After the banner, the detailed help shows the alias lines under their
      heading. */
  lemma DetailedHelpAliases(d: Definition)
    ensures d.aliases.Some? && |d.aliases.value| > 0 ==>
      |DetailedHelp(d).pieces| >= 8 + 2 * |d.aliases.value| &&
      DetailedHelp(d).pieces[8..8 + 2 * |d.aliases.value|] == AliasLines(d.aliases.value)
  {
    if d.aliases.Some? && |d.aliases.value| > 0 {
      var banner, part := Banner(d), AliasPart(d.aliases.value);
      if d.parameters.None? {
        InnerPart(banner, part, [], []);
      } else {
        InnerPart(banner, part, ParameterPart(d.parameters.value), [Rule, " \n"]);
      }
    }
  }

  /** Between the parameters heading and the closing rule, the detailed help
      shows the parameter lines. */
  lemma DetailedHelpParameters(d: Definition)
    ensures !DetailedHelp(d).raised && |d.parameters.value| > 0 ==>
      DetailedHelp(d).pieces[ParametersAt(d.aliases.value) + 1..|DetailedHelp(d).pieces| - 2] == ParametersLines(d.parameters.value)
  {
    if d.aliases.Some? && d.parameters.Some? && |d.parameters.value| > 0 {
      InnerPart(Banner(d) + AliasPart(d.aliases.value), ParameterPart(d.parameters.value), [Rule, " \n"], []);
    }
  }

  /** A part written after `a` and before `c` and `e`, its first element
      aside. */
  lemma InnerPart<T>(a: seq<T>, b: seq<T>, c: seq<T>, e: seq<T>)
    requires |b| > 0
    ensures (a + b)[|a| + 1..|a| + |b|] == b[1..]
    ensures (a + b + c)[|a| + 1..|a| + |b|] == b[1..]
    ensures (a + b + c + e)[|a| + 1..|a| + |b|] == b[1..]
  {
    assert forall k :: |a| + 1 <= k < |a| + |b| ==> (a + b + c + e)[k] == b[k - |a|];
  }

  /** `extractCommandHelp`: the detailed help of the definition named by the
      value of the command's `name` parameter, or nothing when no definition
      has that name. */
  function HelpForName(definitions: seq<Definition>, name: Option<string>): (r: Printed)
    ensures DefinitionByName(definitions, name).None? ==> r == Nothing
    ensures DefinitionByName(definitions, name).Some? ==> r == DetailedHelp(DefinitionByName(definitions, name).value)
  {
    match DefinitionByName(definitions, name)
    case None => Nothing
    case Some(d) => DetailedHelp(d)
  }

  /** Which of the four recognised parameter names a parameter carries. */
  function ForParameter(definitions: seq<Definition>, c: Command, name: Option<string>, p: Parameter): (r: Printed)
    ensures p.metadata.name == "category" ==> r == HelpForCategories(c)
    ensures p.metadata.name == "name" ==> r == HelpForName(definitions, name)
    ensures p.metadata.name !in ["category", "name"] ==> r == Nothing
  {
    if p.metadata.name == "category" then HelpForCategories(c)
    else if p.metadata.name == "set" then Nothing
    else if p.metadata.name == "name" then HelpForName(definitions, name)
    else Nothing
  }

  function ForParameters(definitions: seq<Definition>, c: Command, name: Option<string>, ps: seq<Parameter>): Printed
    decreases |ps|
  {
    if |ps| == 0 then Nothing else Then(ForParameters(definitions, c, name, ps[..|ps| - 1]), ForParameter(definitions, c, name, ps[|ps| - 1]))
  }

  /** `execute`: a null command only gets a warning; a command without a
      parameter list gets the listing of every definition; otherwise each
      parameter, in order, adds the help its name asks for. `name` is the
      value of the command's `name` parameter. */
  function Execute(definitions: seq<Definition>, command: Option<Command>, name: Option<string>): (r: Printed)
    ensures command.None? ==> r == Printed([NullCommand], false)
    ensures command.Some? && command.value.parameters.None? ==> r == HelpForAll(definitions)
    ensures command.Some? && command.value.parameters == Some([]) ==> r == Nothing
  {
    if command.None? then Printed([NullCommand], false)
    else if command.value.parameters.None? then HelpForAll(definitions)
    else ForParameters(definitions, command.value, name, command.value.parameters.value)
  }

  /** The parameters' help is written parameter by parameter: the help of
      `ps + qs` is that of `ps` followed by that of `qs`, and a parameter
      named neither `category` nor `name` adds nothing. */
  lemma {:induction false} ForParametersAppend(definitions: seq<Definition>, c: Command, name: Option<string>, ps: seq<Parameter>, qs: seq<Parameter>)
    ensures ForParameters(definitions, c, name, ps + qs) ==
      Then(ForParameters(definitions, c, name, ps), ForParameters(definitions, c, name, qs))
    decreases |qs|
  {
    if |qs| == 0 {
      assert ps + qs == ps;
      ThenAssociative(ForParameters(definitions, c, name, ps), Nothing, Nothing);
    } else {
      var n := |qs|;
      assert (ps + qs)[..|ps + qs| - 1] == ps + qs[..n - 1];
      assert (ps + qs)[|ps + qs| - 1] == qs[n - 1];
      ForParametersAppend(definitions, c, name, ps, qs[..n - 1]);
      ThenAssociative(ForParameters(definitions, c, name, ps), ForParameters(definitions, c, name, qs[..n - 1]),
        ForParameter(definitions, c, name, qs[n - 1]));
    }
  }

  /** A command whose only parameters are named neither `category` nor `name`
      (`set` among them) prints nothing at all. */
  lemma {:induction false} OtherParametersSilent(definitions: seq<Definition>, c: Command, name: Option<string>, ps: seq<Parameter>)
    requires forall k :: 0 <= k < |ps| ==> ps[k].metadata.name !in ["category", "name"]
    ensures ForParameters(definitions, c, name, ps) == Nothing
    decreases |ps|
  {
    if |ps| > 0 {
      OtherParametersSilent(definitions, c, name, ps[..|ps| - 1]);
      ThenAssociative(Nothing, Nothing, Nothing);
    }
  }
}
