/** A chat command file of two definitions, `help` and `quit`, registered the
    way the interpreter tests register theirs, and the interpreter applied to
    the lines those tests type. The parameter expressions are matched by any
    engine that honours their tags. */
module ChatExample {
  import opened Outcomes
  import opened JavaText
  import opened ProtocolTypes
  import opened Commands
  import opened Registry
  import opened Regex
  import opened Interpreter
  import CommandFile

  const CategoryParameter: ParameterMetadata :=
    ParameterMetadata("category", "Lists the commands of a category", None, None, "-cat", Some("(-cat)\\s*(\\w*)"), Some(String), None)

  const NameParameter: ParameterMetadata :=
    ParameterMetadata("name", "Describes one command", None, None, "-name", Some("(-name=?)\\s*(\\w*)"), Some(String), None)

  const HelpCommand: CommandMetadata :=
    CommandMetadata("NORMAL", "SYSTEM", "HELP", "", "help", Some(DefaultCommandProtocol.Help), Some(["h", "?"]),
      Some([CategoryParameter, NameParameter]))

  const QuitCommand: CommandMetadata :=
    CommandMetadata("NORMAL", "SYSTEM", "QUIT", "", "quit", Some(DefaultCommandProtocol.Quit), Some(["q", "exit"]), Some([]))

  const ChatRegistry: Registry := [Entry(Some(DefaultCommandProtocol.Help), HelpCommand), Entry(Some(DefaultCommandProtocol.Quit), QuitCommand)]

  /** Registering the file's definitions, in order, on an empty interpreter
      binds HELP and QUIT and gives a well-formed map. */
  lemma ChatRegistered()
    ensures RegisterCommands([], [HelpCommand, QuitCommand]) == Registration(ChatRegistry, None)
    ensures WellFormed(ChatRegistry)
  {
    var e1 := Entry(Some(DefaultCommandProtocol.Help), HelpCommand);
    var e2 := Entry(Some(DefaultCommandProtocol.Quit), QuitCommand);
    assert Get([], Some(DefaultCommandProtocol.Help)).None?;
    assert RegisterCommand([], HelpCommand) == Registration([e1], None);
    assert Get([e1], Some(DefaultCommandProtocol.Quit)).None?;
    assert [e1] + [e2] == ChatRegistry;
    assert RegisterCommand([e1], QuitCommand) == Registration(ChatRegistry, None);
    assert RegisterCommands(ChatRegistry, []) == Registration(ChatRegistry, None);
    assert [HelpCommand, QuitCommand][1..] == [QuitCommand];
    assert [QuitCommand][1..] == [];
    assert RegisterCommands([e1], [QuitCommand]) == Registration(ChatRegistry, None);
    assert FiledUnder(HelpCommand, Some(DefaultCommandProtocol.Help));
    assert FiledUnder(QuitCommand, Some(DefaultCommandProtocol.Quit));
  }

  /** Both definitions are NORMAL commands; `help` answers to its name and its
      alias `h`, and nothing answers to `clip`. */
  lemma ChatLookups()
    ensures FindByCategory(ChatRegistry, Normal) == Success([HelpCommand, QuitCommand])
    ensures GetCommandByCategory(ChatRegistry, Normal, "help") == Success(Some(HelpCommand))
    ensures GetCommandByCategory(ChatRegistry, Normal, "h") == Success(Some(HelpCommand))
    ensures GetCommandByCategory(ChatRegistry, Normal, "clip") == Success(None)
  {
    var e2 := Entry(Some(DefaultCommandProtocol.Quit), QuitCommand);
    assert ChatRegistry[1..] == [e2];
    assert [e2][1..] == [];
    assert Selects(HelpCommand, ProtocolCategory, Normal) == Success(true);
    assert Selects(QuitCommand, ProtocolCategory, Normal) == Success(true);
    assert FindBy([], ProtocolCategory, Normal) == Success([]);
    assert [e2][0].definition == QuitCommand;
    assert [QuitCommand] + [] == [QuitCommand];
    assert FindBy([e2], ProtocolCategory, Normal) == Success([QuitCommand]);
    assert ChatRegistry[0].definition == HelpCommand;
    assert [HelpCommand] + [QuitCommand] == [HelpCommand, QuitCommand];
    assert FindBy(ChatRegistry, ProtocolCategory, Normal) == Success([HelpCommand, QuitCommand]);
    var list := [HelpCommand, QuitCommand];
    assert list[1..] == [QuitCommand];
    assert [QuitCommand][1..] == [];
    assert Answers(HelpCommand, "h") == Success(true);
    assert Answers(HelpCommand, "clip") == Success(false);
    assert Answers(QuitCommand, "clip") == Success(false);
    assert FirstNamed([QuitCommand], "clip") == Success(None);
  }

  /** The lines the interpreter tests type, written as blanks around a command
      line: `/`, a gap of five blanks, the name, and the rest of the line. */
  const HelpWithCategory: string := "    " + ("/" + "     " + "help" + "      -cat") + "         "
  const HelpAlone: string := "    " + ("/" + "     " + "help" + "") + "          "
  const HelpWithName: string := "    " + ("/" + "     " + "help" + "      -name=help") + "    "
  const ClipLine: string := "    " + ("/" + "     " + "clip" + "    clatis") + "    "

  /** The three `help` lines of the tests each give a command, whatever
      engine matches the two parameter expressions, provided it honours their
      tags. */
  lemma HelpWithCategoryAccepted(e: Engine, text: string)
    requires WellBehaved(e) && Faithful(e, HelpCommand.parameters.value)
    requires text == HelpWithCategory
    ensures Interpret(e, ChatRegistry, text).Success?
    ensures Interpret(e, ChatRegistry, text).value.metadata == Some(HelpCommand)
  {
    ChatLookups();
    KnownLine(e, ChatRegistry, text, "    ", "help", "      -cat", "         ", HelpCommand);
  }

  lemma HelpAloneAccepted(e: Engine, text: string)
    requires WellBehaved(e) && Faithful(e, HelpCommand.parameters.value)
    requires text == HelpAlone
    ensures Interpret(e, ChatRegistry, text).Success?
    ensures Interpret(e, ChatRegistry, text).value.metadata == Some(HelpCommand)
  {
    ChatLookups();
    KnownLine(e, ChatRegistry, text, "    ", "help", "", "          ", HelpCommand);
  }

  lemma HelpWithNameAccepted(e: Engine, text: string)
    requires WellBehaved(e) && Faithful(e, HelpCommand.parameters.value)
    requires text == HelpWithName
    ensures Interpret(e, ChatRegistry, text).Success?
    ensures Interpret(e, ChatRegistry, text).value.metadata == Some(HelpCommand)
  {
    ChatLookups();
    KnownLine(e, ChatRegistry, text, "    ", "help", "      -name=help", "    ", HelpCommand);
  }

  /** A line holding `/     name`, then `rest`, between blanks, where `name`
      finds the definition `d` in `r`, is interpreted as a command of `d`. */
  lemma KnownLine(e: Engine, r: Registry, text: string, lead: string, name: string, rest: string, trail: string, d: CommandMetadata)
    requires GetCommandByCategory(r, Normal, name) == Success(Some(d))
    requires d.protocol.Some? && d.parameters.Some? && Faithful(e, d.parameters.value)
    requires WellBehaved(e)
    requires forall k :: 0 <= k < |lead| ==> lead[k] == ' '
    requires forall k :: 0 <= k < |trail| ==> trail[k] == ' '
    requires |name| > 0 && forall k :: 0 <= k < |name| ==> IsWordChar(name[k])
    requires |rest| == 0 || (!IsWordChar(rest[0]) && !IsTrimmable(rest[|rest| - 1]))
    requires text == lead + ("/" + "     " + name + rest) + trail
    ensures Interpret(e, r, text).Success?
    ensures Interpret(e, r, text).value.metadata == Some(d)
  {
    var core := "/" + "     " + name + rest;
    assert IsTrimmed(core) by {
      assert core[0] == '/';
      if |rest| > 0 {
        assert core[|core| - 1] == rest[|rest| - 1];
      } else {
        assert core[|core| - 1] == name[|name| - 1];
      }
    }
    TrimAround(lead, core, trail);
    FiveBlanks();
    InterpretNormal(e, r, text, "     ", name, rest, d);
  }

  /** The gap between `/` and the name in the test lines is five blanks. */
  lemma FiveBlanks()
    ensures forall k :: 0 <= k < |"     "| ==> "     "[k] == ' '
  {
  }

  /** `/     clip    clatis` names no definition: `interpret` raises. */
  lemma ClipRaises(e: Engine, text: string)
    requires text == ClipLine
    ensures Interpret(e, ChatRegistry, text) == Failure(Checked(NoDefinition))
  {
    ChatLookups();
    UnknownLine(e, ChatRegistry, text, "    ", "clip", "    clatis", "    ");
  }

  /** A line holding `/     name`, then `rest`, between blanks, where `name`
      is a word nothing answers to. */
  lemma UnknownLine(e: Engine, r: Registry, text: string, lead: string, name: string, rest: string, trail: string)
    requires GetCommandByCategory(r, Normal, name) == Success(None)
    requires forall k :: 0 <= k < |lead| ==> lead[k] == ' '
    requires forall k :: 0 <= k < |trail| ==> trail[k] == ' '
    requires |name| > 0 && forall k :: 0 <= k < |name| ==> IsWordChar(name[k])
    requires |rest| == 0 || (!IsWordChar(rest[0]) && !IsTrimmable(rest[|rest| - 1]))
    requires text == lead + ("/" + "     " + name + rest) + trail
    ensures Interpret(e, r, text) == Failure(Checked(NoDefinition))
  {
    var core := "/" + "     " + name + rest;
    assert IsTrimmed(core) by {
      assert core[0] == '/';
      if |rest| > 0 {
        assert core[|core| - 1] == rest[|rest| - 1];
      } else {
        assert core[|core| - 1] == name[|name| - 1];
      }
    }
    TrimAround(lead, core, trail);
    FiveBlanks();
    InterpretUnfound(e, r, text, "     ", name, rest);
  }

  /** The chat file's lookups: `quit` is found by its name, `h` finds `help`
      alone, and the test's unknown alias finds nothing. */
  lemma ChatCatalogue()
    ensures CommandFile.GetByName([HelpCommand, QuitCommand], "quit") == Some(QuitCommand)
    ensures CommandFile.GetByName([HelpCommand, QuitCommand], "Quit").None?
    ensures CommandFile.FindByAlias([HelpCommand, QuitCommand], "h") == Success([HelpCommand])
    ensures CommandFile.FindByAlias([HelpCommand, QuitCommand], "exit") == Success([QuitCommand])
  {
    ChatNames();
    ChatAliasH();
    ChatAliasExit();
  }

  /** The name lookups of `ChatCatalogue`. */
  lemma ChatNames()
    ensures CommandFile.GetByName([HelpCommand, QuitCommand], "quit") == Some(QuitCommand)
    ensures CommandFile.GetByName([HelpCommand, QuitCommand], "Quit").None?
  {
    var content := [HelpCommand, QuitCommand];
    assert content[1..] == [QuitCommand] && [QuitCommand][1..] == [];
    assert "quit" != "Quit";
  }

  /** `h` is an alias of `help` only. */
  lemma ChatAliasH()
    ensures CommandFile.FindByAlias([HelpCommand, QuitCommand], "h") == Success([HelpCommand])
  {
    var content := [HelpCommand, QuitCommand];
    assert content[1..] == [QuitCommand] && [QuitCommand][1..] == [];
    assert "h" != "?" && "h" != "q" && "h" != "exit";
    assert CommandFile.Occurrences(["h", "?"], "h") == 1 by {
      assert ["h", "?"][1..] == ["?"] && ["?"][1..] == [];
    }
    assert CommandFile.Occurrences(["q", "exit"], "h") == 0 by {
      assert ["q", "exit"][1..] == ["exit"] && ["exit"][1..] == [];
    }
    assert CommandFile.Repeat(HelpCommand, 1) == [HelpCommand];
    CommandFile.FindByAliasOne(QuitCommand, "h");
    assert CommandFile.FindByAlias([QuitCommand], "h") == Success([]);
    assert CommandFile.FindByAlias(content, "h") == Success(CommandFile.Repeat(HelpCommand, 1) + []);
    assert CommandFile.Repeat(HelpCommand, 1) + [] == [HelpCommand];
  }

  /** `exit` is an alias of `quit` only. */
  lemma ChatAliasExit()
    ensures CommandFile.FindByAlias([HelpCommand, QuitCommand], "exit") == Success([QuitCommand])
  {
    var content := [HelpCommand, QuitCommand];
    assert content[1..] == [QuitCommand] && [QuitCommand][1..] == [];
    assert "exit" != "h" && "exit" != "?" && "exit" != "q";
    assert CommandFile.Occurrences(["h", "?"], "exit") == 0 by {
      assert ["h", "?"][1..] == ["?"] && ["?"][1..] == [];
    }
    assert CommandFile.Occurrences(["q", "exit"], "exit") == 1 by {
      assert ["q", "exit"][1..] == ["exit"] && ["exit"][1..] == [];
    }
    assert CommandFile.Repeat(QuitCommand, 1) == [QuitCommand];
    CommandFile.FindByAliasOne(QuitCommand, "exit");
    assert CommandFile.FindByAlias([QuitCommand], "exit") == Success([QuitCommand]);
    assert CommandFile.FindByAlias(content, "exit") == Success(CommandFile.Repeat(HelpCommand, 0) + [QuitCommand]);
    assert CommandFile.Repeat(HelpCommand, 0) + [QuitCommand] == [QuitCommand];
  }
}
