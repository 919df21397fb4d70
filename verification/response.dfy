/** `CommandResponse`: the outcome of processing a command of the earlier
    generation, with the messages to show and the exceptions raised, both
    lists created on first use; and its status enum `CommandStatusType`. */
module Responses {
  import opened Outcomes
  import opened JavaText
  import opened Lists
  import opened EnumLookup
  import opened Legacy

  /** The three processing states of a command. */
  datatype CommandStatusType = Unprocessed | Processed | Failed

  function StatusName(x: CommandStatusType): string {
    match x
    case Unprocessed => "UNPROCESSED"
    case Processed => "PROCESSED"
    case Failed => "FAILED"
  }

  /** The constants of `CommandStatusType` in declaration order. */
  const StatusValues: seq<CommandStatusType> := [Unprocessed, Processed, Failed]

  lemma StatusTable()
    ensures WellFormedTable(StatusValues, StatusName)
  {
    forall x: CommandStatusType ensures x in StatusValues {
      assert x.Unprocessed? || x.Processed? || x.Failed?;
    }
    StatusKeysShaped();
    StatusKeysUnique();
  }

  /** Every name of the table is a constant key. */
  lemma StatusKeysShaped()
    ensures forall k :: 0 <= k < |StatusValues| ==> IsConstantKey(StatusName(StatusValues[k]))
  {
  }

  /** No two constants of the table share a name. */
  lemma StatusKeysUnique()
    ensures KeysUnique(StatusValues, StatusName)
  {
  }

  /** `CommandStatusType.fromString`. */
  function StatusFromString(value: Option<string>): (r: Result<CommandStatusType, LookupError>)
    ensures r.Success? ==> value.Some? && EqualsIgnoreCase(StatusName(r.value), value.value)
    ensures r == Failure(BlankArgument) <==> IsBlank(value)
  {
    Lookup(StatusValues, StatusName, value)
  }

  /** Any letter-case spelling of a constant's name finds that constant. */
  lemma StatusFromStringName(x: CommandStatusType, text: string)
    requires EqualsIgnoreCase(text, StatusName(x))
    ensures StatusFromString(Some(text)) == Success(x)
  {
    StatusTable();
    LookupTableKey(StatusValues, StatusName, x, text);
  }

  /** The lookup raises exactly on a blank argument or an unknown name. */
  lemma StatusFromStringFails(value: Option<string>)
    ensures StatusFromString(value).Failure? <==>
      IsBlank(value) || forall x: CommandStatusType :: !EqualsIgnoreCase(value.value, StatusName(x))
  {
    StatusTable();
    LookupTableFails(StatusValues, StatusName, value);
  }

  /** A response. An exception is represented by its message, which may be
      null. */
  datatype CommandResponse = CommandResponse(
    status: CommandStatusType,
    messages: Option<seq<string>>,
    exceptions: Option<seq<Option<string>>>,
    command: Command)

  /** The constructor: the command and status as given, no lists yet. */
  function NewResponse(command: Command, status: CommandStatusType): (r: CommandResponse)
    ensures r.command == command && r.status == status
    ensures r.messages.None? && r.exceptions.None?
  {
    CommandResponse(status, None, None, command)
  }

  /** `addMessage`: the list is created on first use and the message goes at
      its end; nothing else changes. */
  function AddMessage(r: CommandResponse, message: string): (r': CommandResponse)
    ensures r'.messages == Some(r.messages.GetOr([]) + [message])
    ensures r'.(messages := r.messages) == r
  {
    r.(messages := Append(r.messages, message))
  }

  /** `addException`: the same, on the exception list alone. */
  function AddException(r: CommandResponse, exception: Option<string>): (r': CommandResponse)
    ensures r'.exceptions == Some(r.exceptions.GetOr([]) + [exception])
    ensures r'.(exceptions := r.exceptions) == r
  {
    r.(exceptions := Append(r.exceptions, exception))
  }

  /** Messages added one after the other to a new response are kept in order,
      and the exception list, the status and the command stay as they were. */
  lemma {:induction false} MessagesInOrder(command: Command, status: CommandStatusType, ms: seq<string>)
    ensures var r := AddMessages(NewResponse(command, status), ms);
      r.status == status && r.command == command && r.exceptions.None? &&
      (if |ms| == 0 then r.messages.None? else r.messages == Some(ms))
    decreases |ms|
  {
    if |ms| > 0 {
      MessagesInOrder(command, status, ms[..|ms| - 1]);
      assert ms[..|ms| - 1] + [ms[|ms| - 1]] == ms;
    }
  }

  /** The messages of `ms` added one after the other. */
  function AddMessages(r: CommandResponse, ms: seq<string>): CommandResponse
    decreases |ms|
  {
    if |ms| == 0 then r else AddMessage(AddMessages(r, ms[..|ms| - 1]), ms[|ms| - 1])
  }

  /** Adding a message and adding an exception commute: the two lists are
      independent. */
  lemma MessageExceptionCommute(r: CommandResponse, message: string, exception: Option<string>)
    ensures AddException(AddMessage(r, message), exception) == AddMessage(AddException(r, exception), message)
  {
  }
}
