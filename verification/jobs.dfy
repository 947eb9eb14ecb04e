/** Model of the job state of shell.c and the code that changes it: the two
    slots `g_runningPid` and `g_suspendedPid`, the `makefg` swap, the signal
    handlers and the bookkeeping `eval` does after `fork`.

    Each transition is a pure function from the slots to the new slots and
    the list of things the shell does to the outside world in order:
    `kill` calls, lines printed, and `exit`. */
module JobControl {

  /** Signal numbers as Linux defines them; they appear in `kill` calls and
      in the printed notices. */
  const SIGINT: int := 2
  const SIGQUIT: int := 3
  const SIGCONT: int := 18
  const SIGTSTP: int := 20

  /** A `pid_t`; in a slot, 0 means the slot is empty. */
  type Pid = int
  const NoJob: Pid := 0

  /** A pid handed out by the kernel for a live child: always positive. */
  type ChildPid = p: int | p > 0 witness 1

  /** `g_runningPid` (the foreground job's leader) and `g_suspendedPid`
      (the suspended job's leader). */
  datatype Slots = Slots(running: Pid, suspended: Pid)

  /** The lines the shell prints, by identity rather than by format. */
  datatype Message =
    | Terminated(pid: Pid, sig: int)         // "Job (%d) terminated by signal %d"
    | Stopped(pid: Pid, sig: int)            // "Job (%d) stopped by signal %d"
    | Background(pid: Pid, cmdline: seq<char>)  // "(%d) %s"
    | ForkError                              // "fork error (%s) -- exiting"
    | QuitNotice                             // "Terminating after receipt of SIGQUIT signal"

  /** What a transition does outside the slots. `Kill(target, sig)` is
      `kill(target, sig)`; a negative target names a process group. */
  datatype Effect = Kill(target: int, sig: int) | Print(msg: Message) | Exit(code: int)

  /** The slots after a transition and its effects, in order. */
  datatype Step = Step(slots: Slots, effects: seq<Effect>)

  /** How a reaped child ended, as `waitpid` reports it. Without `WUNTRACED`
      a stopped child is never reported, so only these two occur. */
  datatype ChildStatus = Exited(code: int) | Signaled(sig: int)

  /** One child reported by one `waitpid(-1, &status, WNOHANG)` call. */
  datatype Reaped = Reaped(pid: ChildPid, status: ChildStatus)

  /** The result of `fork` as the parent sees it. */
  datatype ForkResult = ForkFailed | Forked(child: ChildPid)

  /** A step that ends the shell: its last effect is `exit`. */
  predicate Halts(st: Step)
  {
    st.effects != [] && st.effects[|st.effects| - 1].Exit?
  }

  /** `makefg`: continue the suspended group, if there is one, and exchange
      the two slots. The only signal sent is SIGCONT to the group that
      becomes the foreground job, and it is sent exactly when that slot was
      occupied. */
  function MakeFg(s: Slots): (r: Step)
    ensures r.slots.running == s.suspended && r.slots.suspended == s.running
    ensures r.effects != [] <==> s.suspended != NoJob
    ensures forall e :: e in r.effects ==> e == Kill(-r.slots.running, SIGCONT)
    ensures |r.effects| <= 1
  {
    var cont := if s.suspended != NoJob then [Kill(-s.suspended, SIGCONT)] else [];
    Step(Slots(s.suspended, s.running), cont)
  }

  /** One pass of the `sigchld_handler` loop for a reaped child `pid`. The
      foreground slot empties exactly when `pid` is the foreground job, and
      nothing else happens otherwise; the suspended slot is never touched.
      A notice is printed only for the foreground job killed by SIGINT. */
  function Reap(s: Slots, pid: ChildPid, status: ChildStatus): (r: Step)
    ensures r.slots.suspended == s.suspended
    ensures r.slots.running == NoJob <==> (pid == s.running || s.running == NoJob)
    ensures pid != s.running ==> r == Step(s, [])
    ensures r.effects != [] <==> (pid == s.running && status == Signaled(SIGINT))
    ensures r.effects != [] ==> r.effects == [Print(Terminated(pid, SIGINT))]
  {
    if s.running == pid then
      var notice := if status.Signaled? && status.sig == SIGINT
        then [Print(Terminated(pid, SIGINT))] else [];
      Step(Slots(NoJob, s.suspended), notice)
    else
      Step(s, [])
  }

  /** `sigchld_handler`: reap every child the kernel reports, in order. The
      foreground slot ends empty exactly when the foreground job is among
      them, the suspended slot is unchanged, and at most one notice is
      printed: exactly when the first report of the foreground job says
      SIGINT killed it. */
  function SigChld(s: Slots, reaped: seq<Reaped>): (r: Step)
    ensures r.slots.suspended == s.suspended
    ensures r.slots.running
      == if exists i :: 0 <= i < |reaped| && reaped[i].pid == s.running then NoJob else s.running
    ensures |r.effects| <= 1
    ensures r.effects != [] ==> r.effects == [Print(Terminated(s.running, SIGINT))]
    ensures r.effects != [] <==>
      exists i :: 0 <= i < |reaped| && reaped[i].pid == s.running && reaped[i].status == Signaled(SIGINT)
        && forall j :: 0 <= j < i ==> reaped[j].pid != s.running
    decreases |reaped|
  {
    if reaped == [] then Step(s, [])
    else
      var first := Reap(s, reaped[0].pid, reaped[0].status);
      var rest := SigChld(first.slots, reaped[1..]);
      assert forall i :: 1 <= i < |reaped| ==> reaped[1..][i - 1] == reaped[i];
      assert first.slots.running == NoJob && s.running != NoJob ==> rest.effects == [];
      Step(rest.slots, first.effects + rest.effects)
  }

  /** `sigint_handler`: with no foreground job, nothing; otherwise SIGINT to
      the foreground group. The slots never change: the job leaves the
      foreground slot only when `sigchld_handler` reaps it. */
  function SigInt(s: Slots): (r: Step)
    ensures r.slots == s
    ensures s.running == NoJob ==> r.effects == []
    ensures s.running != NoJob ==> r.effects == [Kill(-s.running, SIGINT)]
  {
    if s.running == NoJob then Step(s, []) else Step(s, [Kill(-s.running, SIGINT)])
  }

  /** `sigtstp_handler`: with no foreground job, nothing; otherwise print
      the stop notice, send SIGTSTP to the foreground group, and swap the
      slots as `makefg` does, so the stopped job becomes the suspended one. */
  function SigTstp(s: Slots): (r: Step)
    ensures s.running == NoJob ==> r == Step(s, [])
    ensures s.running != NoJob ==>
      && r.slots == Slots(s.suspended, s.running)
      && |r.effects| >= 2
      && r.effects[..2] == [Print(Stopped(s.running, SIGTSTP)), Kill(-s.running, SIGTSTP)]
      && r.effects[2..] == MakeFg(s).effects
  {
    if s.running == NoJob then Step(s, [])
    else
      var swap := MakeFg(s);
      Step(swap.slots, [Print(Stopped(s.running, SIGTSTP)), Kill(-s.running, SIGTSTP)] + swap.effects)
  }

  /** `sigquit_handler`: print the notice and exit with status 1. */
  function SigQuit(s: Slots): (r: Step)
    ensures r.effects == [Print(QuitNotice), Exit(1)]
    ensures r.slots == s
  {
    Step(s, [Print(QuitNotice), Exit(1)])
  }

  /** The parent side of `eval` after `fork`. A failed fork prints the error
      and exits with status 1 before any slot is written. Otherwise the
      child becomes the foreground job, unless it runs in the background:
      then its pid and command line are printed and the foreground slot is
      left empty. The suspended slot is never touched. */
  function Launch(s: Slots, fork: ForkResult, bg: bool, cmdline: seq<char>): (r: Step)
    ensures fork.ForkFailed? ==> r == Step(s, [Print(ForkError), Exit(1)])
    ensures fork.Forked? ==> r.slots.suspended == s.suspended && !Halts(r)
    ensures fork.Forked? && !bg ==> r.slots.running == fork.child && r.effects == []
    ensures fork.Forked? && bg ==>
      r.slots.running == NoJob && r.effects == [Print(Background(fork.child, cmdline))]
  {
    match fork
    case ForkFailed => Step(s, [Print(ForkError), Exit(1)])
    case Forked(pid) =>
      if bg then Step(Slots(NoJob, s.suspended), [Print(Background(pid, cmdline))])
      else Step(Slots(pid, s.suspended), [])
  }
}
