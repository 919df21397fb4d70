/** The terminal: its status enum `TerminalStatusType`, the status machine of
    `AbstractTerminal` (start, stop, pause, resume), and the two `process`
    rules of `Terminal`: the response a command gets, and the lines a
    response prints. */
module Terminals {
  import opened Outcomes
  import opened JavaText
  import opened EnumLookup
  import opened LegacyTypes
  import opened Legacy
  import opened Responses

  /** The five states of a terminal. */
  datatype TerminalStatusType = Unknown | Initialize | Stopped | Running | Paused

  function TerminalStatusName(x: TerminalStatusType): string {
    match x
    case Unknown => "UNKNOWN"
    case Initialize => "INITIALIZE"
    case Stopped => "STOPPED"
    case Running => "RUNNING"
    case Paused => "PAUSED"
  }

  /** The constants of `TerminalStatusType` in declaration order. */
  const TerminalStatusValues: seq<TerminalStatusType> := [Unknown, Initialize, Stopped, Running, Paused]

  lemma TerminalStatusTable()
    ensures WellFormedTable(TerminalStatusValues, TerminalStatusName)
  {
    forall x: TerminalStatusType ensures x in TerminalStatusValues {
      assert x.Unknown? || x.Initialize? || x.Stopped? || x.Running? || x.Paused?;
    }
    TerminalStatusKeysShaped();
    TerminalStatusKeysUnique();
  }

  /** Every name of the table is a constant key. */
  lemma TerminalStatusKeysShaped()
    ensures forall k :: 0 <= k < |TerminalStatusValues| ==> IsConstantKey(TerminalStatusName(TerminalStatusValues[k]))
  {
  }

  /** No two constants of the table share a name. */
  lemma TerminalStatusKeysUnique()
    ensures KeysUnique(TerminalStatusValues, TerminalStatusName)
  {
  }

  /** `TerminalStatusType.fromString`. */
  function TerminalStatusFromString(value: Option<string>): (r: Result<TerminalStatusType, LookupError>)
    ensures r.Success? ==> value.Some? && EqualsIgnoreCase(TerminalStatusName(r.value), value.value)
    ensures r == Failure(BlankArgument) <==> IsBlank(value)
  {
    Lookup(TerminalStatusValues, TerminalStatusName, value)
  }

  /** Any letter-case spelling of a constant's name finds that constant. */
  lemma TerminalStatusFromStringName(x: TerminalStatusType, text: string)
    requires EqualsIgnoreCase(text, TerminalStatusName(x))
    ensures TerminalStatusFromString(Some(text)) == Success(x)
  {
    TerminalStatusTable();
    LookupTableKey(TerminalStatusValues, TerminalStatusName, x, text);
  }

  /** The lookup raises exactly on a blank argument or an unknown name. */
  lemma TerminalStatusFromStringFails(value: Option<string>)
    ensures TerminalStatusFromString(value).Failure? <==>
      IsBlank(value) || forall x: TerminalStatusType :: !EqualsIgnoreCase(value.value, TerminalStatusName(x))
  {
    TerminalStatusTable();
    LookupTableFails(TerminalStatusValues, TerminalStatusName, value);
  }

  // ---------------------------------------------------------------------------
  // The status machine of `AbstractTerminal`.

  /** A terminal starts out in `UNKNOWN`. */
  const InitialStatus: TerminalStatusType := Unknown

  /** `start`: a terminal never started, or stopped, runs. */
  function Start(s: TerminalStatusType): (r: TerminalStatusType)
    ensures r == Running <==> s in {Unknown, Stopped, Running}
    ensures r != Running ==> r == s
  {
    if s == Unknown || s == Stopped then Running else s
  }

  /** `stop`: only a running terminal stops. */
  function Stop(s: TerminalStatusType): (r: TerminalStatusType)
    ensures s == Running ==> r == Stopped
    ensures s != Running ==> r == s
  {
    if s == Running then Stopped else s
  }

  /** `resume`: only a paused terminal runs again. */
  function Resume(s: TerminalStatusType): (r: TerminalStatusType)
    ensures s == Paused ==> r == Running
    ensures s != Paused ==> r == s
  {
    if s == Paused then Running else s
  }

  /** `pause`: only a running terminal pauses. */
  function Pause(s: TerminalStatusType): (r: TerminalStatusType)
    ensures s == Running ==> r == Paused
    ensures s != Running ==> r == s
  {
    if s == Running then Paused else s
  }

  /** The four public transitions. */
  datatype Transition = StartTerminal | StopTerminal | ResumeTerminal | PauseTerminal

  function Apply(s: TerminalStatusType, t: Transition): TerminalStatusType {
    match t
    case StartTerminal => Start(s)
    case StopTerminal => Stop(s)
    case ResumeTerminal => Resume(s)
    case PauseTerminal => Pause(s)
  }

  /** The status after the transitions of `ts`, in order. */
  function Run(s: TerminalStatusType, ts: seq<Transition>): TerminalStatusType
    decreases |ts|
  {
    if |ts| == 0 then s else Run(Apply(s, ts[0]), ts[1..])
  }

  /** Every transition is idempotent, and none leads into `INITIALIZE`. */
  lemma TransitionsIdempotent(s: TerminalStatusType, t: Transition)
    ensures Apply(Apply(s, t), t) == Apply(s, t)
    ensures Apply(s, t) == Initialize ==> s == Initialize
  {
  }

  /** From a new terminal, no sequence of calls ever reaches `INITIALIZE`, and
      a paused terminal has to be resumed before it can stop. */
  lemma {:induction false} NeverInitializing(s: TerminalStatusType, ts: seq<Transition>)
    requires s != Initialize
    ensures Run(s, ts) != Initialize
    ensures s == Paused && ResumeTerminal !in ts ==> Run(s, ts) == Paused
    decreases |ts|
  {
    if |ts| > 0 {
      TransitionsIdempotent(s, ts[0]);
      assert ResumeTerminal !in ts ==> ResumeTerminal !in ts[1..];
      NeverInitializing(Apply(s, ts[0]), ts[1..]);
    }
  }

  // ---------------------------------------------------------------------------
  // `Terminal.process`.

  /** A command whose definition is null cannot be processed: reading its
      name dereferences null. */
  datatype ProcessError = NullDefinition

  const AwayMessage: string := "You are now away from the keyboard"
  const WhoMessage: string := "We are querying the server for your request..."

  /** `process(ICommand)`: the command is always processed; a NORMAL command
      named exactly `afk` or `who` gets the matching message and any other
      command gets none. */
  function Process(c: Command): (r: Result<CommandResponse, ProcessError>)
    ensures r.Failure? <==> c.metadata.None?
    ensures r.Success? ==> r.value.status == Processed && r.value.command == c && r.value.exceptions.None?
    ensures r.Success? ==>
      var d := c.metadata.value;
      if d.category == Normal && d.name == "afk" then r.value.messages == Some([AwayMessage])
      else if d.category == Normal && d.name == "who" then r.value.messages == Some([WhoMessage])
      else r.value.messages.None?
  {
    if c.metadata.None? then Failure(NullDefinition)
    else
      var response := NewResponse(c, Processed);
      var d := c.metadata.value;
      if d.category == Normal && d.name == "afk" then Success(AddMessage(response, AwayMessage))
      else if d.category == Normal && d.name == "who" then Success(AddMessage(response, WhoMessage))
      else Success(response)
  }

  /** The name of a response's command, which every fallback line quotes. */
  function CommandName(r: CommandResponse): Result<string, ProcessError> {
    if r.command.metadata.None? then Failure(NullDefinition) else Success(r.command.metadata.value.name)
  }

  /** What `process(CommandResponse)` leaves on the terminal: the lines
      printed, and the exception that ended it, if any. Lines printed before
      the exception stay printed. */
  datatype Printout = Printout(lines: seq<string>, raised: Option<ProcessError>)

  /** `process(CommandResponse)`: the lines printed on the terminal. A status
      of UNPROCESSED prints one line; PROCESSED prints the messages, or a
      success line when there are none; FAILED prints the messages and then
      the exceptions' messages, or a failure line when there are no
      exceptions. A fallback line quotes the definition's name, so a null
      definition raises there, after whatever was printed before it. */
  function Output(r: CommandResponse): (out: Printout)
    ensures out.raised.Some? <==> r.command.metadata.None? && (r.status == Unprocessed || (r.status == Processed && r.messages.None?) || (r.status == Failed && r.exceptions.None?))
    ensures r.status == Processed && r.messages.Some? ==> out == Printout(r.messages.value, None)
    ensures r.status == Failed && r.exceptions.Some? ==>
      out == Printout(r.messages.GetOr([]) + seq(|r.exceptions.value|, k requires 0 <= k < |r.exceptions.value| => Show(r.exceptions.value[k])), None)
    ensures r.status == Failed ==> |out.lines| >= |r.messages.GetOr([])| && out.lines[..|r.messages.GetOr([])|] == r.messages.GetOr([])
    ensures out.raised.Some? ==> out.lines == (if r.status == Failed then r.messages.GetOr([]) else [])
    ensures r.status == Unprocessed && out.raised.None? ==>
      out.lines == ["The command: " + r.command.metadata.value.name + " has not been processed!"]
    ensures r.status == Processed && r.messages.None? && out.raised.None? ==>
      out.lines == ["> command: " + r.command.metadata.value.name + " has been processed sucessfully."]
    ensures r.status == Failed && r.exceptions.None? && out.raised.None? ==>
      out.lines == r.messages.GetOr([]) + ["The command: " + r.command.metadata.value.name + " has failed!"]
  {
    match r.status
    case Unprocessed =>
      (match CommandName(r)
       case Failure(f) => Printout([], Some(f))
       case Success(name) => Printout(["The command: " + name + " has not been processed!"], None))
    case Processed =>
      if r.messages.Some? then Printout(r.messages.value, None)
      else
        (match CommandName(r)
         case Failure(f) => Printout([], Some(f))
         case Success(name) => Printout(["> command: " + name + " has been processed sucessfully."], None))
    case Failed =>
      var shown := r.messages.GetOr([]);
      if r.exceptions.Some? then
        Printout(shown + seq(|r.exceptions.value|, k requires 0 <= k < |r.exceptions.value| => Show(r.exceptions.value[k])), None)
      else
        (match CommandName(r)
         case Failure(f) => Printout(shown, Some(f))
         case Success(name) => Printout(shown + ["The command: " + name + " has failed!"], None))
  }

  /** What a terminal prints for a command it processes: the message for
      `afk` and `who` in NORMAL, and the success line for any other. */
  lemma ProcessThenOutput(c: Command)
    requires c.metadata.Some?
    ensures var d := c.metadata.value;
      var out := Output(Process(c).value);
      out.raised.None? &&
      (d.category == Normal && d.name == "afk" ==> out.lines == [AwayMessage]) &&
      (d.category == Normal && d.name == "who" ==> out.lines == [WhoMessage]) &&
      (!(d.category == Normal && d.name in ["afk", "who"]) ==> out.lines == ["> command: " + d.name + " has been processed sucessfully."])
  {
  }
}
