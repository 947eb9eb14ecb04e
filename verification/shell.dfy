/** Model of the command side of shell.c: `builtin_cmd`, `waitfg` and `eval`,
    composed from the tokenizer and the job-state transitions.

    While `waitfg` sleeps in `sigsuspend`, the signals that reach the shell
    are given as a sequence of events; each one runs its handler to
    completion before `waitfg` checks the foreground slot again. The result
    of `fork` is a parameter. */
module Shell {
  import opened Tokenizer
  import opened JobControl

  /** A signal delivered to the shell: ctrl-c, ctrl-z, a batch of children
      reported to `sigchld_handler`, or SIGQUIT from the driver. */
  datatype Event = Interrupt | Suspend | ChildChanged(reaped: seq<Reaped>) | QuitRequest

  /** Runs the handler `main` installed for the signal of `e`. Only
      SIGQUIT ends the shell. */
  function Deliver(s: Slots, e: Event): (r: Step)
    ensures Halts(r) <==> e.QuitRequest?
    ensures e.Interrupt? ==> r == SigInt(s)
    ensures e.Suspend? ==> r == SigTstp(s)
    ensures e.ChildChanged? ==> r == SigChld(s, e.reaped)
    ensures e.QuitRequest? ==> r == SigQuit(s)
  {
    match e
    case Interrupt => SigInt(s)
    case Suspend =>
      var r := SigTstp(s);
      assert r.effects != [] ==> !r.effects[|r.effects| - 1].Exit? by {
        if r.effects != [] {
          assert r.effects == r.effects[..2] + r.effects[2..];
        }
      }
      r
    case ChildChanged(reaped) => SigChld(s, reaped)
    case QuitRequest => SigQuit(s)
  }

  /** How a command left the shell: back at the prompt, still asleep in
      `waitfg` when the events ran out, or ended by `exit(code)`. */
  datatype Status = Returned | Blocked | Halted(code: int)

  /** The slots and effects after a command, how many of the events it
      consumed, and how it ended. */
  datatype Outcome = Outcome(slots: Slots, effects: seq<Effect>, consumed: nat, status: Status)

  /** The effects of `o` end in `exit` exactly when `o` says it halted. */
  predicate Consistent(o: Outcome)
  {
    && (o.status.Halted? <==> o.effects != [] && o.effects[|o.effects| - 1].Exit?)
    && (o.status.Halted? ==> o.effects[|o.effects| - 1] == Exit(o.status.code))
  }

  /** `waitfg`: sleep until the foreground slot is empty. It returns exactly
      when that slot is empty, without consuming an event if it already is;
      it is still asleep only with a foreground job and no event left; and
      it ends the shell on SIGQUIT, with status 1: a SIGQUIT it consumes is
      always the last event it consumes. */
  function WaitFg(s: Slots, events: seq<Event>): (r: Outcome)
    ensures r.consumed <= |events|
    ensures Consistent(r)
    ensures s.running == NoJob ==> r == Outcome(s, [], 0, Returned)
    ensures r.status.Returned? <==> !r.status.Halted? && r.slots.running == NoJob
    ensures r.status.Blocked? ==> r.consumed == |events|
    ensures r.status.Halted? ==>
      r.status.code == 1 && r.consumed > 0 && events[r.consumed - 1] == QuitRequest
    ensures forall j :: 0 <= j < r.consumed && events[j] == QuitRequest ==>
      r.status.Halted? && j == r.consumed - 1
    decreases |events|
  {
    if s.running == NoJob then Outcome(s, [], 0, Returned)
    else if events == [] then Outcome(s, [], 0, Blocked)
    else
      var d := Deliver(s, events[0]);
      if Halts(d) then
        Outcome(d.slots, d.effects, 1, Halted(1))
      else
        var rest := WaitFg(d.slots, events[1..]);
        assert rest.status.Halted? ==> events[1..][rest.consumed - 1] == events[rest.consumed];
        assert forall j :: 1 <= j < rest.consumed + 1 ==> events[j] == events[1..][j - 1];
        Outcome(rest.slots, d.effects + rest.effects, rest.consumed + 1, rest.status)
  }

  /** The answer of `builtin_cmd`: not a built-in (it returns 0), or the
      outcome of the built-in it ran. */
  datatype Builtin = NotBuiltin | Handled(out: Outcome)

  const QUIT: seq<char> := "quit"
  const FG: seq<char> := "fg"

  /** `builtin_cmd`. `quit` exits with status 0 and touches nothing;
      `fg` runs `makefg` and then `waitfg`; any other command is not a
      built-in and changes nothing. */
  function BuiltinCmd(s: Slots, argv: seq<Arg>, events: seq<Event>): (r: Builtin)
    requires argv != []
    ensures r.NotBuiltin? <==> argv[0] != QUIT && argv[0] != FG
    ensures argv[0] == QUIT ==> r.out == Outcome(s, [Exit(0)], 0, Halted(0))
    ensures argv[0] == FG ==>
      && MakeFg(s).effects <= r.out.effects
      && r.out.consumed <= |events|
      && (s.suspended == NoJob ==> r.out == Outcome(Slots(NoJob, s.running), [], 0, Returned))
    ensures r.Handled? ==> Consistent(r.out)
    ensures r.Handled? && r.out.status.Returned? ==> r.out.slots.running == NoJob
    ensures r.Handled? && r.out.status.Blocked? ==>
      r.out.slots.running != NoJob && r.out.consumed == |events|
  {
    if argv[0] == QUIT then Handled(Outcome(s, [Exit(0)], 0, Halted(0)))
    else if argv[0] == FG then
      var swap := MakeFg(s);
      var w := WaitFg(swap.slots, events);
      Handled(Outcome(w.slots, swap.effects + w.effects, w.consumed, w.status))
    else NotBuiltin
  }

  /** `eval` for the input line `line`, with `fork` the result the parent
      gets from `fork()` and `events` the signals that arrive while it
      waits. A line without arguments changes nothing; a failed `fork`
      exits with status 1; a built-in is left to `builtin_cmd` before any
      `fork`; a background job is announced and `eval`
      returns at once; a foreground job is waited for. Whenever `eval`
      returns after running a command, the foreground slot is empty. */
  function Eval(s: Slots, line: seq<char>, fork: ForkResult, events: seq<Event>): (r: Outcome)
    requires |line| > 0
    ensures r.consumed <= |events|
    ensures Consistent(r)
    ensures ParseLine(line).argv == [] ==> r == Outcome(s, [], 0, Returned)
    ensures r.status.Returned? && ParseLine(line).argv != [] ==> r.slots.running == NoJob
    ensures r.status.Blocked? ==> r.slots.running != NoJob && r.consumed == |events|
    ensures
      var p := ParseLine(line);
      p.argv != [] && (p.argv[0] == QUIT || p.argv[0] == FG) ==> r == BuiltinCmd(s, p.argv, events).out
    ensures
      var p := ParseLine(line);
      p.argv != [] && p.argv[0] != QUIT && p.argv[0] != FG ==>
        && (fork.ForkFailed? ==> r == Outcome(s, [Print(ForkError), Exit(1)], 0, Halted(1)))
        && (fork.Forked? && p.bg ==>
              r == Outcome(Slots(NoJob, s.suspended), [Print(Background(fork.child, line))], 0, Returned))
        && (fork.Forked? && !p.bg && events == [] ==>
              r == Outcome(Slots(fork.child, s.suspended), [], 0, Blocked))
  {
    var p := ParseLine(line);
    if p.argv == [] then Outcome(s, [], 0, Returned)
    else
      match BuiltinCmd(s, p.argv, events)
      case Handled(out) => out
      case NotBuiltin =>
        var l := Launch(s, fork, p.bg, line);
        if fork.ForkFailed? then Outcome(l.slots, l.effects, 0, Halted(1))
        else
          var w := WaitFg(l.slots, events);
          Outcome(w.slots, l.effects + w.effects, w.consumed, w.status)
  }
}
