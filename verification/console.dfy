/** The console the operations talk through, as a function on a state: what
    has been printed and run so far (the trace), the lines still to be read
    from standard input, how many commands have run, the exit code each
    command will have, and the verbose and always-yes switches. An operation
    step either goes on with a value and a new state or halts, by
    `System.exit` or by an exception. */
module Console {
  import opened Wrappers
  import opened JavaText
  import Versions
  import Configuration
  import Releases
  import Http

  /** What the outside world sees, in order. */
  datatype Event =
    | Out(text: string)
    | Prompt(text: string)
    | Err(text: string)
    | Run(command: string, ignoreErrors: bool, exitCode: int)
    | Write(path: string, content: string)
    | Table(headers: seq<string>, rows: seq<seq<string>>)

  /** The exceptions that end an operation. */
  datatype Failure =
    | CommandFailed(command: string, exitCode: int)
    | InputExhausted
    | Operation(message: string)
    | Config(configError: Configuration.ConfigError)
    | BadVersion(parseError: Versions.ParseError)
    | Catalog(fetchError: Http.FetchError<Releases.QueryError>)
    | Unreadable(path: string)
    | TempDirUnavailable
    | DateOutOfRange
    | NoValue

  /** The RuntimeException text of a failed command. */
  function CommandFailedMessage(command: string, exitCode: int): string {
    "Command '" + command + "' exited with exit code " + IntString(exitCode)
  }

  datatype End = Exited(status: int) | Raised(failure: Failure)

  datatype State = State(
    trace: seq<Event>,
    input: seq<string>,
    ran: nat,
    exitCode: nat -> int,
    verbose: bool,
    alwaysYes: bool)

  /** One step of an operation: it goes on with a value, or it halts. */
  datatype Step<+T> = Next(value: T, state: State) | Halt(state: State, end: End) {
    predicate IsFailure() {
      Halt?
    }

    function PropagateFailure<U>(): Step<U>
      requires Halt?
    {
      Halt(state, end)
    }

    function Extract(): (T, State)
      requires Next?
    {
      (value, state)
    }
  }

  function Emit(s: State, e: Event): State {
    s.(trace := s.trace + [e])
  }

  function Print(s: State, text: string): Step<()> {
    Next((), Emit(s, Out(text)))
  }

  function Raise<T>(s: State, f: Failure): Step<T> {
    Halt(s, Raised(f))
  }

  /** A value computed without the console, or the exception computing it threw. */
  function Lift<T>(s: State, x: Result<T, Failure>): (r: Step<T>)
    ensures r.state == s
    ensures r.Next? <==> x.Success?
    ensures x.Success? ==> r.value == x.value
    ensures x.Failure? ==> r.end == Raised(x.error)
  {
    match x
    case Success(v) => Next(v, s)
    case Failure(f) => Raise(s, f)
  }

  /** Lines printed one after the other. */
  function PrintLines(s: State, lines: seq<string>): (r: State)
    ensures r.input == s.input && r.ran == s.ran && r.exitCode == s.exitCode
    ensures r.verbose == s.verbose && r.alwaysYes == s.alwaysYes
    ensures |r.trace| == |s.trace| + |lines| && r.trace[..|s.trace|] == s.trace
    ensures forall i :: 0 <= i < |lines| ==> r.trace[|s.trace| + i] == Out(lines[i])
  {
    s.(trace := s.trace + seq(|lines|, i requires 0 <= i < |lines| => Out(lines[i])))
  }

  /** `exit()`: status 0, nothing printed. */
  function Exit<T>(s: State): Step<T> {
    Halt(s, Exited(0))
  }

  const SupportLine := "You can ask for support at https://forum.getodk.org/c/support"

  /** `exit(status)`: the support line, then the status. */
  function ExitWith<T>(s: State, status: int): (r: Step<T>)
    ensures r.Halt? && r.end == Exited(status) && r.state.trace == s.trace + [Out(SupportLine)]
  {
    Halt(Emit(s, Out(SupportLine)), Exited(status))
  }

  function ShowTable(s: State, rows: seq<seq<string>>, headers: seq<string>): State {
    Emit(s, Table(headers, rows))
  }

  /** `UncheckedFiles.write`: an I/O error is printed and swallowed, so a
      write never stops an operation. */
  function WriteFile(s: State, path: string, content: string): State {
    Emit(s, Write(path, content))
  }

  const VerboseNotice := "[Console] Enabling verbose mode. Showing all commands"
  const AlwaysYesNotice := "[Console] Assuming 'yes' in all confirm prompts"

  /** `setVerboseMode` announces itself only when switching on. */
  function SetVerboseMode(s: State, enabled: bool): (r: State)
    ensures r.verbose == enabled && r.alwaysYes == s.alwaysYes && r.input == s.input && r.ran == s.ran
    ensures r.trace == s.trace + (if enabled then [Out(VerboseNotice), Out("")] else [])
  {
    var s1 := if enabled then Emit(Emit(s, Out(VerboseNotice)), Out("")) else s;
    s1.(verbose := enabled)
  }

  /** `setAlwaysYesMode` announces itself only when switching on in verbose mode. */
  function SetAlwaysYesMode(s: State, enabled: bool): (r: State)
    ensures r.alwaysYes == enabled && r.verbose == s.verbose && r.input == s.input && r.ran == s.ran
    ensures r.trace == s.trace + (if enabled && s.verbose then [Out(AlwaysYesNotice), Out("")] else [])
  {
    var s1 := if enabled && s.verbose then Emit(Emit(s, Out(AlwaysYesNotice)), Out("")) else s;
    s1.(alwaysYes := enabled)
  }

  // ---------------------------------------------------------------------------
  // Running a command

  /** `execute(command, ignoreErrors)`: echoed first in verbose mode; the
      command gets the next exit code; a non-zero code throws unless errors
      are ignored. */
  function Execute(s: State, command: string, ignoreErrors: bool): (r: Step<()>)
    ensures r.state.ran == s.ran + 1 && r.state.input == s.input
    ensures r.state.verbose == s.verbose && r.state.alwaysYes == s.alwaysYes && r.state.exitCode == s.exitCode
    ensures r.state.trace == s.trace + (if s.verbose then [Out(command)] else []) + [Run(command, ignoreErrors, s.exitCode(s.ran))]
    ensures r.Halt? <==> s.exitCode(s.ran) != 0 && !ignoreErrors
    ensures r.Halt? ==> r.end == Raised(CommandFailed(command, s.exitCode(s.ran)))
  {
    var code := s.exitCode(s.ran);
    var echoed := if s.verbose then Emit(s, Out(command)) else s;
    var s1 := Emit(echoed, Run(command, ignoreErrors, code)).(ran := s.ran + 1);
    if code != 0 && !ignoreErrors then Halt(s1, Raised(CommandFailed(command, code)))
    else Next((), s1)
  }

  // ---------------------------------------------------------------------------
  // Asking for confirmation

  function PromptText(message: string): string {
    message + " (YES/no): "
  }

  const AnswerError := "You need to answer 'yes' or 'no'."

  /** `confirm(message)`: always-yes answers at once; otherwise each line
      read is trimmed, and an empty line or "yes" in any case accepts, "no" in
      any case declines, anything else is reported and asked again. Reading
      past the end of input throws. */
  function Confirm(s: State, message: string): (r: Step<bool>)
    ensures s.alwaysYes ==> r == Next(true, s.(trace := s.trace + [Prompt(PromptText(message)), Out("yes")]))
    ensures r.state.ran == s.ran && r.state.verbose == s.verbose && r.state.alwaysYes == s.alwaysYes && r.state.exitCode == s.exitCode
    ensures r.Halt? ==> r.end == Raised(InputExhausted)
    decreases |s.input|
  {
    var prompted := Emit(s, Prompt(PromptText(message)));
    if s.alwaysYes then
      assert Emit(prompted, Out("yes")).trace == s.trace + [Prompt(PromptText(message)), Out("yes")];
      Next(true, Emit(prompted, Out("yes")))
    else if |s.input| == 0 then Halt(prompted, Raised(InputExhausted))
    else
      var line := Trim(s.input[0]);
      var rest := prompted.(input := s.input[1..]);
      if line != "" && !EqualsIgnoreCase(line, "yes") && !EqualsIgnoreCase(line, "no") then
        Confirm(Emit(rest, Err(AnswerError)), message)
      else Next(!EqualsIgnoreCase(line, "no"), rest)
  }

  /** A line that ends the questioning: empty after trimming, or yes or no in
      any case. */
  predicate Decisive(line: string) {
    var t := Trim(line);
    t == "" || EqualsIgnoreCase(t, "yes") || EqualsIgnoreCase(t, "no")
  }

  /** What a decisive line answers: anything but "no". */
  predicate Accepts(line: string) {
    !EqualsIgnoreCase(Trim(line), "no")
  }

  /** The index of the first decisive line, or the number of lines. */
  function FirstDecisive(input: seq<string>): (k: nat)
    ensures k <= |input|
    ensures forall i :: 0 <= i < k ==> !Decisive(input[i])
    ensures k < |input| ==> Decisive(input[k])
  {
    if |input| == 0 then 0
    else if Decisive(input[0]) then 0
    else 1 + FirstDecisive(input[1..])
  }

  /** The prompt and error printed for each of `k` rejected lines. */
  function Retries(message: string, k: nat): (t: seq<Event>)
    ensures |t| == 2 * k
  {
    if k == 0 then [] else [Prompt(PromptText(message)), Err(AnswerError)] + Retries(message, k - 1)
  }

  lemma LowerWords()
    ensures IsLowerAscii("yes") && IsLowerAscii("no")
  {
  }

  /** What `confirm` does without always-yes, read off the input directly:
      one re-prompt per rejected line, then the answer of the first decisive
      line with exactly the lines up to it consumed; with no decisive line,
      everything is read and the read past the end throws. */
  function ConfirmByFirstDecisive(s: State, message: string): Step<bool> {
    var k := FirstDecisive(s.input);
    var trace := s.trace + Retries(message, k) + [Prompt(PromptText(message))];
    if k < |s.input| then Next(Accepts(s.input[k]), s.(trace := trace, input := s.input[k + 1..]))
    else Halt(s.(trace := trace, input := []), Raised(InputExhausted))
  }

  /** The state after one rejected line. */
  function Rejected(s: State, message: string): State
    requires |s.input| > 0
  {
    Emit(Emit(s, Prompt(PromptText(message))), Err(AnswerError)).(input := s.input[1..])
  }

  lemma ConfirmRetry(s: State, message: string)
    requires !s.alwaysYes && |s.input| > 0 && !Decisive(s.input[0])
    ensures Confirm(s, message) == Confirm(Rejected(s, message), message)
  {
  }

  lemma ConfirmDecides(s: State, message: string)
    requires !s.alwaysYes && (|s.input| == 0 || Decisive(s.input[0]))
    ensures Confirm(s, message) == ConfirmByFirstDecisive(s, message)
  {
    LowerWords();
    assert Retries(message, 0) == [];
    if |s.input| > 0 {
      assert s.input[1..] == s.input[0 + 1..];
    }
  }

  lemma ReferenceRetry(s: State, message: string)
    requires |s.input| > 0 && !Decisive(s.input[0])
    ensures ConfirmByFirstDecisive(s, message) == ConfirmByFirstDecisive(Rejected(s, message), message)
  {
    var next := Rejected(s, message);
    var k := FirstDecisive(s.input);
    assert next.input == s.input[1..];
    assert FirstDecisive(next.input) == k - 1;
    RetriesAfterRejection(s, message, k);
    if k < |s.input| {
      assert next.input[k - 1 + 1..] == s.input[k + 1..];
      assert next.input[k - 1] == s.input[k];
    }
  }

  /** The retries of `k` rejected lines are one prompt and error, then those
      of the remaining `k - 1`. */
  lemma RetriesAfterRejection(s: State, message: string, k: nat)
    requires |s.input| > 0 && k > 0
    ensures s.trace + Retries(message, k) == Rejected(s, message).trace + Retries(message, k - 1)
  {
    assert Retries(message, k) == [Prompt(PromptText(message)), Err(AnswerError)] + Retries(message, k - 1);
  }

  /** Without always-yes, `confirm` is the reading above. */
  lemma {:induction false} ConfirmFollowsInput(s: State, message: string)
    requires !s.alwaysYes
    ensures Confirm(s, message) == ConfirmByFirstDecisive(s, message)
    decreases |s.input|
  {
    if |s.input| > 0 && !Decisive(s.input[0]) {
      ConfirmRetry(s, message);
      ConfirmFollowsInput(Rejected(s, message), message);
      ReferenceRetry(s, message);
    } else {
      ConfirmDecides(s, message);
    }
  }

  /** The first answer decides when it is decisive: "no" declines. */
  lemma ConfirmNo(s: State, message: string)
    requires !s.alwaysYes && |s.input| > 0 && Trim(s.input[0]) == "no"
    ensures Confirm(s, message).Next? && !Confirm(s, message).value
  {
    LowerWords();
  }

  // ---------------------------------------------------------------------------
  // The superuser check

  const NotSuperuserMessage := "Superuser privileges required. Try running it with sudo."

  function Concat(lines: seq<string>): string {
    if |lines| == 0 then "" else Concat(lines[..|lines| - 1]) + lines[|lines| - 1]
  }

  /** The lines a process watcher hands on to its consumer: all of them in
      verbose mode, none otherwise. */
  function Watch(lines: seq<string>, verbose: bool): (r: seq<string>)
    ensures verbose ==> r == lines
    ensures !verbose ==> r == []
  {
    if verbose then lines else []
  }

  /** The watcher builder's default when `verbose(...)` is not called. */
  const WatcherVerboseDefault := false

  /** What `requireSuperuser` collects from `whoami`, as written: its watcher
      is built without `verbose(true)`, so the lines never reach the buffer. */
  function CollectedAsWritten(whoami: seq<string>): string {
    Concat(Watch(whoami, WatcherVerboseDefault))
  }

  /** `requireSuperuser()` as the code stands: it compares what was collected
      with "root". */
  function RequireSuperuserAsWritten(s: State, whoami: seq<string>): (r: Step<()>)
    ensures r.state == s
  {
    if CollectedAsWritten(whoami) == "root" then Next((), s) else Raise(s, Operation(NotSuperuserMessage))
  }

  /** The check as written refuses everybody, root included, whatever
      `whoami` printed. */
  lemma SuperuserAsWrittenRefusesRoot(s: State, whoami: seq<string>)
    ensures RequireSuperuserAsWritten(s, whoami) == Halt(s, Raised(Operation(NotSuperuserMessage)))
  {
    assert CollectedAsWritten(whoami) == "";
  }

  /** `requireSuperuser()` as intended: the lines `whoami` printed, joined,
      must be exactly "root". */
  function RequireSuperuser(s: State, whoami: seq<string>): (r: Step<()>)
    ensures r.state == s
    ensures r.Next? <==> Concat(whoami) == "root"
    ensures r.Halt? ==> r.end == Raised(Operation(NotSuperuserMessage))
  {
    if Concat(whoami) == "root" then Next((), s) else Raise(s, Operation(NotSuperuserMessage))
  }

  /** The intended check differs from the check as written exactly when
      `whoami` printed root: it lets root through and refuses everybody
      else just as the written one does. */
  lemma RequireSuperuserAcceptsRoot(s: State, whoami: seq<string>)
    ensures Concat(whoami) == "root" ==> RequireSuperuser(s, whoami) == Next((), s) && RequireSuperuserAsWritten(s, whoami).Halt?
    ensures Concat(whoami) != "root" ==> RequireSuperuser(s, whoami) == RequireSuperuserAsWritten(s, whoami)
  {
    SuperuserAsWrittenRefusesRoot(s, whoami);
  }

  /** Root is recognised however the name is split into lines, and
      trailing empty lines do not matter. */
  lemma RootHoweverSplit(s: State)
    ensures RequireSuperuser(s, ["root"]).Next?
    ensures RequireSuperuser(s, ["ro", "ot"]).Next?
    ensures RequireSuperuser(s, ["root", ""]).Next?
    ensures RequireSuperuser(s, ["admin"]).Halt?
  {
    assert ["root"][..0] == [];
    assert ["ro", "ot"][..1] == ["ro"] && ["ro"][..0] == [];
    assert ["root", ""][..1] == ["root"];
    assert ["admin"][..0] == [];
  }

  // ---------------------------------------------------------------------------
  // Plans: the command sequences the operations run

  /** One thing a plan does: print a line, run a command, write a file, or
      fail with an exception. */
  datatype Action = Say(line: string) | Cmd(command: string, ignoreErrors: bool) | Put(path: string, content: string) | Abort(failure: Failure)

  /** Carries out a plan, stopping at the first command that fails without
      ignoring errors, or at an abort. */
  function Perform(s: State, plan: seq<Action>): (r: Step<()>)
    ensures r.state.input == s.input && r.state.verbose == s.verbose && r.state.alwaysYes == s.alwaysYes && r.state.exitCode == s.exitCode
    ensures r.state.ran >= s.ran
    ensures r.Halt? ==> r.end.Raised?
    decreases |plan|
  {
    if |plan| == 0 then Next((), s)
    else
      var first := match plan[0]
        case Say(line) => Next((), Emit(s, Out(line)))
        case Cmd(command, ignore) => Execute(s, command, ignore)
        case Put(path, content) => Next((), WriteFile(s, path, content))
        case Abort(f) => Raise(s, f);
      match first
      case Halt(s1, e) => Halt(s1, e)
      case Next(_, s1) => Perform(s1, plan[1..])
  }

  /** `block(name, body)`: the heading, the body, then "  done" and a blank
      line; a body that throws leaves the closing lines out. */
  function Block(name: string, body: seq<Action>): (plan: seq<Action>)
    ensures |plan| == |body| + 3 && plan[0] == Say("- " + name)
    ensures plan[1..|body| + 1] == body && plan[|body| + 1..] == [Say("  done"), Say("")]
  {
    [Say("- " + name)] + body + [Say("  done"), Say("")]
  }

  /** Performing two plans in a row is performing the first and, if it
      returns, the second. */
  lemma {:induction false} PerformAppend(s: State, p: seq<Action>, q: seq<Action>)
    ensures Perform(s, p + q) ==
              match Perform(s, p)
              case Halt(s1, e) => Halt(s1, e)
              case Next(_, s1) => Perform(s1, q)
    decreases |p|
  {
    if |p| > 0 {
      assert (p + q)[0] == p[0] && (p + q)[1..] == p[1..] + q;
      var first := match p[0]
        case Say(line) => Next((), Emit(s, Out(line)))
        case Cmd(command, ignore) => Execute(s, command, ignore)
        case Put(path, content) => Next((), WriteFile(s, path, content))
        case Abort(f) => Raise(s, f);
      if first.Next? {
        PerformAppend(first.state, p[1..], q);
      }
    } else {
      assert p + q == q;
    }
  }

  /** Only a mandatory command or an abort in the plan can stop it. */
  predicate CannotStop(plan: seq<Action>) {
    forall i :: 0 <= i < |plan| ==> !plan[i].Abort? && !(plan[i].Cmd? && !plan[i].ignoreErrors)
  }

  function CommandCount(plan: seq<Action>): nat {
    if |plan| == 0 then 0 else (if plan[0].Cmd? then 1 else 0) + CommandCount(plan[1..])
  }

  /** A plan of lines, writes and best-effort commands always returns, and
      runs every command in it. */
  lemma {:induction false} BestEffortReturns(s: State, plan: seq<Action>)
    requires CannotStop(plan)
    ensures Perform(s, plan).Next? && Perform(s, plan).state.ran == s.ran + CommandCount(plan)
    decreases |plan|
  {
    if |plan| > 0 {
      var first := match plan[0]
        case Say(line) => Next((), Emit(s, Out(line)))
        case Cmd(command, ignore) => Execute(s, command, ignore)
        case Put(path, content) => Next((), WriteFile(s, path, content))
        case Abort(f) => Raise(s, f);
      BestEffortReturns(first.state, plan[1..]);
    }
  }

  /** A plan halts only by one of its own mandatory commands failing, or by
      one of its aborts. */
  lemma {:induction false} PerformHaltsByPlan(s: State, plan: seq<Action>)
    requires Perform(s, plan).Halt?
    ensures var e := Perform(s, plan).end;
            || (exists c, code :: e == Raised(CommandFailed(c, code)) && Cmd(c, false) in plan && code != 0)
            || (exists f :: e == Raised(f) && Abort(f) in plan)
    decreases |plan|
  {
    var first := match plan[0]
      case Say(line) => Next((), Emit(s, Out(line)))
      case Cmd(command, ignore) => Execute(s, command, ignore)
      case Put(path, content) => Next((), WriteFile(s, path, content))
      case Abort(f) => Raise(s, f);
    if first.Next? {
      PerformHaltsByPlan(first.state, plan[1..]);
      var e := Perform(s, plan).end;
      assert Perform(s, plan) == Perform(first.state, plan[1..]);
      if exists c, code :: e == Raised(CommandFailed(c, code)) && Cmd(c, false) in plan[1..] && code != 0 {
        var c, code :| e == Raised(CommandFailed(c, code)) && Cmd(c, false) in plan[1..] && code != 0;
        assert Cmd(c, false) in plan;
      } else {
        var f :| e == Raised(f) && Abort(f) in plan[1..];
        assert Abort(f) in plan;
      }
    } else {
      assert plan[0] in plan;
    }
  }

  /** A block returns exactly when its body does, and then the closing lines
      follow the body's trace. */
  lemma BlockFraming(s: State, name: string, body: seq<Action>)
    ensures var headed := Emit(s, Out("- " + name));
            var inner := Perform(headed, body);
            && (Perform(s, Block(name, body)).Next? <==> inner.Next?)
            && (inner.Halt? ==> Perform(s, Block(name, body)) == inner)
            && (inner.Next? ==> Perform(s, Block(name, body)).state == Emit(Emit(inner.state, Out("  done")), Out("")))
  {
    var head: seq<Action> := [Say("- " + name)];
    var tail: seq<Action> := [Say("  done"), Say("")];
    assert Block(name, body) == head + (body + tail);
    PerformAppend(s, head, body + tail);
    assert head[1..] == [];
    PerformAppend(Emit(s, Out("- " + name)), body, tail);
    var inner := Perform(Emit(s, Out("- " + name)), body);
    if inner.Next? {
      assert tail[1..][1..] == [];
    }
  }

  /** A block whose body halts ends any plan it starts, as the body did. */
  lemma HaltedBlockStops(s: State, name: string, body: seq<Action>, rest: seq<Action>)
    requires Perform(Emit(s, Out("- " + name)), body).Halt?
    ensures Perform(s, Block(name, body) + rest) == Perform(Emit(s, Out("- " + name)), body)
  {
    BlockFraming(s, name, body);
    PerformAppend(s, Block(name, body), rest);
  }

  /** Whether, with the exit codes `codes` and `n` commands already run, every
      mandatory command of the plan exits with 0 and the plan holds no abort. */
  predicate Succeeds(plan: seq<Action>, codes: nat -> int, n: nat)
    decreases |plan|
  {
    || |plan| == 0
    || match plan[0]
       case Abort(_) => false
       case Cmd(_, ignore) => (ignore || codes(n) == 0) && Succeeds(plan[1..], codes, n + 1)
       case _ => Succeeds(plan[1..], codes, n)
  }

  /** A plan returns exactly when it succeeds, and then it has run each of
      its commands once. */
  lemma {:induction false} PerformReturnsIff(s: State, plan: seq<Action>)
    ensures Perform(s, plan).Next? <==> Succeeds(plan, s.exitCode, s.ran)
    ensures Perform(s, plan).Next? ==> Perform(s, plan).state.ran == s.ran + CommandCount(plan)
    decreases |plan|
  {
    if |plan| > 0 {
      var first := match plan[0]
        case Say(line) => Next((), Emit(s, Out(line)))
        case Cmd(command, ignore) => Execute(s, command, ignore)
        case Put(path, content) => Next((), WriteFile(s, path, content))
        case Abort(f) => Raise(s, f);
      if first.Next? {
        PerformReturnsIff(first.state, plan[1..]);
      }
    }
  }

  lemma {:induction false} SucceedsAppend(p: seq<Action>, q: seq<Action>, codes: nat -> int, n: nat)
    ensures Succeeds(p + q, codes, n) <==> Succeeds(p, codes, n) && Succeeds(q, codes, n + CommandCount(p))
    ensures CommandCount(p + q) == CommandCount(p) + CommandCount(q)
    decreases |p|
  {
    if |p| == 0 {
      assert p + q == q;
    } else {
      assert (p + q)[0] == p[0] && (p + q)[1..] == p[1..] + q;
      SucceedsAppend(p[1..], q, codes, if p[0].Cmd? then n + 1 else n);
    }
  }

  /** The commands of a plan, in order, with their ignore-errors flags. */
  function Commands(plan: seq<Action>): (cs: seq<(string, bool)>)
    ensures |cs| == CommandCount(plan)
  {
    if |plan| == 0 then []
    else (if plan[0].Cmd? then [(plan[0].command, plan[0].ignoreErrors)] else []) + Commands(plan[1..])
  }

  /** The files a plan writes, in order. */
  function PutsOf(plan: seq<Action>): seq<(string, string)> {
    if |plan| == 0 then []
    else (if plan[0].Put? then [(plan[0].path, plan[0].content)] else []) + PutsOf(plan[1..])
  }

  lemma PlanAppend(p: seq<Action>, q: seq<Action>)
    ensures Commands(p + q) == Commands(p) + Commands(q)
    ensures PutsOf(p + q) == PutsOf(p) + PutsOf(q)
  {
    CommandsAppend(p, q);
    PutsAppend(p, q);
  }

  lemma {:induction false} CommandsAppend(p: seq<Action>, q: seq<Action>)
    ensures Commands(p + q) == Commands(p) + Commands(q)
    decreases |p|
  {
    if |p| == 0 {
      assert p + q == q;
    } else {
      assert (p + q)[0] == p[0] && (p + q)[1..] == p[1..] + q;
      CommandsAppend(p[1..], q);
    }
  }

  lemma {:induction false} PutsAppend(p: seq<Action>, q: seq<Action>)
    ensures PutsOf(p + q) == PutsOf(p) + PutsOf(q)
    decreases |p|
  {
    if |p| == 0 {
      assert p + q == q;
    } else {
      assert (p + q)[0] == p[0] && (p + q)[1..] == p[1..] + q;
      PutsAppend(p[1..], q);
    }
  }

  /** The files written so far, read off a trace. */
  function WritesOf(trace: seq<Event>): seq<(string, string)> {
    if |trace| == 0 then []
    else
      var last := trace[|trace| - 1];
      WritesOf(trace[..|trace| - 1]) + (if last.Write? then [(last.path, last.content)] else [])
  }

  predicate IsPrefix<T(==)>(a: seq<T>, b: seq<T>) {
    |a| <= |b| && b[..|a|] == a
  }

  lemma WritesOfOther(t: seq<Event>, e: Event)
    requires !e.Write?
    ensures WritesOf(t + [e]) == WritesOf(t)
  {
    assert (t + [e])[..|t|] == t;
  }

  lemma WritesOfWrite(t: seq<Event>, path: string, content: string)
    ensures WritesOf(t + [Write(path, content)]) == WritesOf(t) + [(path, content)]
  {
    assert (t + [Write(path, content)])[..|t|] == t;
  }

  /** What a plan's first action writes: its own file if it is a write, and
      nothing otherwise. */
  lemma FirstActionWrites(s: State, a: Action)
    ensures var first := match a
              case Say(line) => Next((), Emit(s, Out(line)))
              case Cmd(command, ignore) => Execute(s, command, ignore)
              case Put(path, content) => Next((), WriteFile(s, path, content))
              case Abort(f) => Raise(s, f);
            WritesOf(first.state.trace) == WritesOf(s.trace) + (if a.Put? then [(a.path, a.content)] else [])
  {
    match a
    case Say(line) => WritesOfOther(s.trace, Out(line));
    case Put(path, content) => WritesOfWrite(s.trace, path, content);
    case Abort(_) =>
    case Cmd(command, ignore) =>
      var echoed := if s.verbose then s.trace + [Out(command)] else s.trace;
      if s.verbose {
        WritesOfOther(s.trace, Out(command));
      }
      WritesOfOther(echoed, Run(command, ignore, s.exitCode(s.ran)));
  }

  /** A plan writes its files in order and stops writing where it stops: a
      plan that returns has written all of them, one that halts a first part. */
  lemma {:induction false} PerformWrites(s: State, plan: seq<Action>)
    ensures var w := WritesOf(Perform(s, plan).state.trace);
            var before := WritesOf(s.trace);
            && |before| <= |w| && w[..|before|] == before
            && IsPrefix(w[|before|..], PutsOf(plan))
            && (Perform(s, plan).Next? ==> w == before + PutsOf(plan))
    decreases |plan|
  {
    if |plan| > 0 {
      var first := match plan[0]
        case Say(line) => Next((), Emit(s, Out(line)))
        case Cmd(command, ignore) => Execute(s, command, ignore)
        case Put(path, content) => Next((), WriteFile(s, path, content))
        case Abort(f) => Raise(s, f);
      FirstActionWrites(s, plan[0]);
      var own: seq<(string, string)> := if plan[0].Put? then [(plan[0].path, plan[0].content)] else [];
      assert PutsOf(plan) == own + PutsOf(plan[1..]);
      if first.Next? {
        assert Perform(s, plan) == Perform(first.state, plan[1..]);
        PerformWrites(first.state, plan[1..]);
        PrefixStep(WritesOf(s.trace), own, WritesOf(Perform(s, plan).state.trace), PutsOf(plan[1..]), Perform(s, plan).Next?);
      }
    }
  }

  /** A plan that writes no file: it returns exactly when it succeeds, having
      run all its commands, and leaves the written files as they were. */
  lemma QuietOutcome(s: State, plan: seq<Action>)
    requires PutsOf(plan) == []
    ensures Perform(s, plan).Next? <==> Succeeds(plan, s.exitCode, s.ran)
    ensures Perform(s, plan).Next? ==> Perform(s, plan).state.ran == s.ran + CommandCount(plan)
    ensures WritesOf(Perform(s, plan).state.trace) == WritesOf(s.trace)
  {
    PerformReturnsIff(s, plan);
    PerformWrites(s, plan);
    var w := WritesOf(Perform(s, plan).state.trace);
    assert w == w[..|WritesOf(s.trace)|] + w[|WritesOf(s.trace)|..];
  }

  /** One step of PerformWrites: writing `own` first, then a prefix of `rest`,
      is writing a prefix of `own + rest`. */
  lemma PrefixStep<T>(before: seq<T>, own: seq<T>, w: seq<T>, rest: seq<T>, done: bool)
    requires |before + own| <= |w| && w[..|before + own|] == before + own
    requires IsPrefix(w[|before + own|..], rest)
    requires done ==> w == before + own + rest
    ensures |before| <= |w| && w[..|before|] == before
    ensures IsPrefix(w[|before|..], own + rest)
    ensures done ==> w == before + (own + rest)
  {
    assert w[..|before|] == (before + own)[..|before|];
    assert w[|before|..] == own + w[|before + own|..];
  }

  /** A block adds only lines: it has its body's commands, files and outcome. */
  lemma BlockLikeBody(name: string, body: seq<Action>, codes: nat -> int, n: nat)
    ensures Commands(Block(name, body)) == Commands(body) && CommandCount(Block(name, body)) == CommandCount(body)
    ensures PutsOf(Block(name, body)) == PutsOf(body)
    ensures Succeeds(Block(name, body), codes, n) <==> Succeeds(body, codes, n)
  {
    var head: seq<Action> := [Say("- " + name)];
    var tail: seq<Action> := [Say("  done"), Say("")];
    assert Block(name, body) == head + (body + tail);
    assert head[1..] == [] && tail[1..][1..] == [];
    PlanAppend(head, body + tail);
    PlanAppend(body, tail);
    SucceedsAppend(head, body + tail, codes, n);
    SucceedsAppend(body, tail, codes, n);
  }

  /** Commands run one after the other, all with the same flag. */
  function Commanded(commands: seq<string>, ignoreErrors: bool): (plan: seq<Action>)
    ensures |plan| == |commands| && forall i :: 0 <= i < |commands| ==> plan[i] == Cmd(commands[i], ignoreErrors)
  {
    seq(|commands|, i requires 0 <= i < |commands| => Cmd(commands[i], ignoreErrors))
  }

  /** Such a plan runs those commands in order, writes nothing, and returns
      exactly when each mandatory one answers 0. */
  lemma {:induction false} CommandedShape(commands: seq<string>, ignoreErrors: bool, codes: nat -> int, n: nat)
    ensures var cs := Commands(Commanded(commands, ignoreErrors));
            |cs| == |commands| && forall i :: 0 <= i < |commands| ==> cs[i] == (commands[i], ignoreErrors)
    ensures PutsOf(Commanded(commands, ignoreErrors)) == []
    ensures Succeeds(Commanded(commands, ignoreErrors), codes, n) <==>
              ignoreErrors || forall j :: n <= j < n + |commands| ==> codes(j) == 0
    decreases |commands|
  {
    if |commands| > 0 {
      var p := Commanded(commands, ignoreErrors);
      assert p[1..] == Commanded(commands[1..], ignoreErrors);
      CommandedShape(commands[1..], ignoreErrors, codes, n + 1);
      var cs := Commands(p);
      assert cs == [(commands[0], ignoreErrors)] + Commands(p[1..]);
      forall i | 0 <= i < |commands| ensures cs[i] == (commands[i], ignoreErrors) {
        if i > 0 {
          assert cs[i] == Commands(p[1..])[i - 1];
          assert commands[1..][i - 1] == commands[i];
        }
      }
    }
  }

  /** Lines printed one after the other on the error stream. */
  function PrintErrors(s: State, lines: seq<string>): (r: State)
    ensures r.input == s.input && r.ran == s.ran && r.exitCode == s.exitCode
    ensures r.verbose == s.verbose && r.alwaysYes == s.alwaysYes
    ensures |r.trace| == |s.trace| + |lines| && r.trace[..|s.trace|] == s.trace
    ensures forall i :: 0 <= i < |lines| ==> r.trace[|s.trace| + i] == Err(lines[i])
  {
    s.(trace := s.trace + seq(|lines|, i requires 0 <= i < |lines| => Err(lines[i])))
  }

  lemma ErrorsShown(s: State, lines: seq<string>)
    ensures forall i :: 0 <= i < |lines| ==> Err(lines[i]) in PrintErrors(s, lines).trace
  {
    var r := PrintErrors(s, lines);
    forall i | 0 <= i < |lines| ensures Err(lines[i]) in r.trace {
      assert r.trace[|s.trace| + i] == Err(lines[i]);
    }
  }

  /** The same commands, each paired with one ignore-errors flag. */
  function Flagged(commands: seq<string>, ignoreErrors: bool): (cs: seq<(string, bool)>)
    ensures |cs| == |commands| && forall i :: 0 <= i < |commands| ==> cs[i] == (commands[i], ignoreErrors)
  {
    seq(|commands|, i requires 0 <= i < |commands| => (commands[i], ignoreErrors))
  }

  lemma CommandsOfCommanded(commands: seq<string>, ignoreErrors: bool)
    ensures Commands(Commanded(commands, ignoreErrors)) == Flagged(commands, ignoreErrors)
    ensures CommandCount(Commanded(commands, ignoreErrors)) == |commands|
  {
    CommandedShape(commands, ignoreErrors, x => 0, 0);
  }

  lemma FlaggedAppend(a: seq<string>, b: seq<string>, ignoreErrors: bool)
    ensures Flagged(a + b, ignoreErrors) == Flagged(a, ignoreErrors) + Flagged(b, ignoreErrors)
  {
  }

  /** A plan that nothing can stop succeeds whatever the exit codes. */
  lemma CannotStopSucceeds(plan: seq<Action>, codes: nat -> int, n: nat)
    requires CannotStop(plan)
    ensures Succeeds(plan, codes, n)
  {
    var s := State([], [], n, codes, false, false);
    BestEffortReturns(s, plan);
    PerformReturnsIff(s, plan);
  }

  lemma CannotStopAppend(p: seq<Action>, q: seq<Action>)
    ensures CannotStop(p + q) <==> CannotStop(p) && CannotStop(q)
  {
    if CannotStop(p) && CannotStop(q) {
      forall i | 0 <= i < |p + q| ensures !(p + q)[i].Abort? && !((p + q)[i].Cmd? && !(p + q)[i].ignoreErrors) {
        if i >= |p| {
          assert (p + q)[i] == q[i - |p|];
        }
      }
    }
    if CannotStop(p + q) {
      forall i | 0 <= i < |p| ensures !p[i].Abort? && !(p[i].Cmd? && !p[i].ignoreErrors) {
        assert (p + q)[i] == p[i];
      }
      forall i | 0 <= i < |q| ensures !q[i].Abort? && !(q[i].Cmd? && !q[i].ignoreErrors) {
        assert (p + q)[|p| + i] == q[i];
      }
    }
  }
}
