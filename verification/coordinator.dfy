/** `CommandCoordinator` of the earlier generation: a dispatch map from a
    command protocol to the executable that processes it. Protocol keys and
    executables are left abstract; the text the coordinator appends to its
    terminal is returned as a sequence of strings. */
module Coordinator {
  import opened Outcomes
  import opened JavaText

  /** The bindings. A key bound to a null executable is present with `None`. */
  type Executables<K, X> = map<K, Option<X>>

  /** What `registerExecutable` leaves: the bindings and the warnings it
      appended to the terminal. */
  datatype Registered<K, X> = Registered(executables: Executables<K, X>, warnings: seq<string>)

  const AlreadyRegistered: string := "A command definition is already registered for: "
  const NullExecutable: string := "Executable command cannot be null!\n"

  /** `registerExecutable`: the key is always bound to the executable, null
      included, replacing any earlier binding. A key already bound to a
      non-null executable, and a null executable, each add a warning first.
      `name` renders a key as `toString` does. */
  function RegisterExecutable<K, X>(m: Executables<K, X>, name: K -> string, key: K, executable: Option<X>): (r: Registered<K, X>)
    ensures r.executables == m[key := executable]
    ensures |r.warnings| > 0 <==> (key in m && m[key].Some?) || executable.None?
    ensures executable.None? ==> r.warnings[|r.warnings| - 1] == NullExecutable
    ensures key in m && m[key].Some? ==> |r.warnings| >= 2 && r.warnings[..2] == [AlreadyRegistered, name(key) + "\n"]
  {
    var bound := if key in m && m[key].Some? then [AlreadyRegistered, name(key) + "\n"] else [];
    var empty := if executable.None? then [NullExecutable] else [];
    Registered(m[key := executable], bound + empty)
  }

  /** Registering one key leaves every other binding as it was, and a second
      registration of the same key replaces the first. */
  lemma RegisterIsolated<K, X>(m: Executables<K, X>, name: K -> string, key: K, a: Option<X>, b: Option<X>)
    ensures forall k :: k != key ==> (k in RegisterExecutable(m, name, key, a).executables <==> k in m)
    ensures forall k :: k != key && k in m ==> RegisterExecutable(m, name, key, a).executables[k] == m[k]
    ensures RegisterExecutable(RegisterExecutable(m, name, key, a).executables, name, key, b).executables ==
      RegisterExecutable(m, name, key, b).executables
  {
    assert m[key := a][key := b] == m[key := b];
  }

  /** How a processor's `execute` ends: normally, with a `CommandException`
      and its message, or with any other exception. */
  datatype Completion = Completed | CommandFailed(message: Option<string>) | Crashed

  /** `execute`: what happened and the text appended to the terminal. */
  datatype Execution = NotBound | Ran(completion: Completion, pane: seq<string>)

  /** `execute`: a command whose protocol has no binding, or a null one, is
      ignored. Otherwise the processor runs; a `CommandException` it raises is
      reported on the terminal and swallowed, any other exception
      propagates. `run` stands for the processor's own `execute`. */
  function Execute<K, X>(m: Executables<K, X>, key: K, run: X -> Completion): (r: Result<Execution, Completion>)
    ensures r.Failure? <==> key in m && m[key].Some? && run(m[key].value) == Crashed
    ensures r == Success(NotBound) <==> key !in m || m[key].None?
    ensures r.Success? && r.value.Ran? ==>
      key in m && m[key].Some? && r.value.completion == run(m[key].value) &&
      (r.value.completion.CommandFailed? <==> |r.value.pane| == 1) &&
      (r.value.completion.CommandFailed? ==>
        r.value.pane[0] == "[ERROR] " + PadLeft(Show(r.value.completion.message), 1) + "\n")
    ensures r.Success? && r.value.Ran? && r.value.completion == Completed ==> r.value.pane == []
  {
    if key !in m || m[key].None? then Success(NotBound)
    else
      var outcome := run(m[key].value);
      match outcome
      case Completed => Success(Ran(outcome, []))
      case CommandFailed(message) => Success(Ran(outcome, ["[ERROR] " + PadLeft(Show(message), 1) + "\n"]))
      case Crashed => Failure(Crashed)
  }

  /** After `registerExecutable(key, x)` with a non-null `x`, executing a
      command of that protocol runs `x`; after registering null, it is
      ignored. */
  lemma RegisterThenExecute<K, X>(m: Executables<K, X>, name: K -> string, key: K, executable: Option<X>, run: X -> Completion)
    requires executable.Some? ==> run(executable.value) != Crashed
    ensures var r := Execute(RegisterExecutable(m, name, key, executable).executables, key, run);
      if executable.None? then r == Success(NotBound)
      else r.Success? && r.value.Ran? && r.value.completion == run(executable.value)
  {
  }
}
