/** Properties of the job-state transitions: the invariant they keep, how
    they compose, and the life of one job through them. */
module JobControlProps {
  import opened JobControl

  /** The slots as the shell keeps them: no negative pid, and an occupied
      foreground slot never names the suspended job. */
  predicate Valid(s: Slots)
  {
    s.running >= 0 && s.suspended >= 0 && (s.running != NoJob ==> s.running != s.suspended)
  }

  /** `makefg` undoes itself on the slots; the two calls continue first the
      suspended job and then the one that was in the foreground. */
  lemma MakeFgInvolution(s: Slots)
    ensures MakeFg(MakeFg(s).slots).slots == s
    ensures MakeFg(s).effects + MakeFg(MakeFg(s).slots).effects
      == (if s.suspended != NoJob then [Kill(-s.suspended, SIGCONT)] else [])
       + (if s.running != NoJob then [Kill(-s.running, SIGCONT)] else [])
  {
  }

  /** Every transition keeps the slots valid. The condition on `fork` rules
      out a `fork` that hands out the pid of a suspended job already reaped,
      which the slot still holds (see `StaleSlotPidReuse`). */
  lemma TransitionsKeepValid(s: Slots, reaped: seq<Reaped>, fork: ForkResult, bg: bool, cmdline: seq<char>)
    requires Valid(s)
    requires fork.Forked? ==> fork.child != s.suspended
    ensures Valid(MakeFg(s).slots)
    ensures Valid(SigChld(s, reaped).slots)
    ensures Valid(SigInt(s).slots)
    ensures Valid(SigTstp(s).slots)
    ensures Valid(SigQuit(s).slots)
    ensures Valid(Launch(s, fork, bg, cmdline).slots)
  {
  }

  /** Reaping a batch in two calls of the handler has the same result as
      reaping it in one. */
  lemma {:induction false} SigChldSplit(s: Slots, a: seq<Reaped>, b: seq<Reaped>)
    ensures var first := SigChld(s, a);
      var second := SigChld(first.slots, b);
      SigChld(s, a + b) == Step(second.slots, first.effects + second.effects)
    decreases |a|
  {
    if a == [] {
      assert a + b == b;
    } else {
      assert (a + b)[0] == a[0];
      assert (a + b)[1..] == a[1..] + b;
      var one := Reap(s, a[0].pid, a[0].status);
      SigChldSplit(one.slots, a[1..], b);
    }
  }

  /** Reaping the same child twice changes nothing the second time. */
  lemma SigChldTwice(s: Slots, r: Reaped)
    ensures var once := SigChld(s, [r]);
      SigChld(once.slots, [r]) == Step(once.slots, [])
  {
  }

  /** A foreground job that exits normally: `eval` puts it in the foreground
      slot, `sigchld_handler` empties the slot again, and nothing is printed. */
  lemma ForegroundLifecycle(s: Slots, child: ChildPid, code: int, cmdline: seq<char>)
    ensures var launched := Launch(s, Forked(child), false, cmdline);
      && launched == Step(Slots(child, s.suspended), [])
      && SigChld(launched.slots, [Reaped(child, Exited(code))]) == Step(Slots(NoJob, s.suspended), [])
  {
  }

  /** ctrl-c on a foreground job: the group gets SIGINT, and when the child
      is reaped as killed by SIGINT the notice is printed and the slot emptied. */
  lemma InterruptThenReap(s: Slots, child: ChildPid)
    requires s.running == child
    ensures SigInt(s) == Step(s, [Kill(-s.running, SIGINT)])
    ensures SigChld(s, [Reaped(child, Signaled(SIGINT))])
      == Step(Slots(NoJob, s.suspended), [Print(Terminated(child, SIGINT))])
  {
  }

  /** ctrl-z then `fg`: the stopped job becomes the suspended one, and `fg`
      continues it and restores both slots. */
  lemma SuspendThenResume(s: Slots)
    requires s.running != NoJob
    ensures SigTstp(s).slots == Slots(s.suspended, s.running)
    ensures MakeFg(SigTstp(s).slots) == Step(s, [Kill(-s.running, SIGCONT)])
  {
  }

  /** ctrl-z with nothing suspended yet leaves the foreground empty, so
      `waitfg` returns; no SIGCONT is sent to anyone. */
  lemma SuspendWithNothingSuspended(s: Slots)
    requires s.running != NoJob && s.suspended == NoJob
    ensures SigTstp(s)
      == Step(Slots(NoJob, s.running), [Print(Stopped(s.running, SIGTSTP)), Kill(-s.running, SIGTSTP)])
  {
  }

  /** `sigchld_handler` only clears the foreground slot: when the suspended
      job is reaped, its pid stays in the suspended slot, and a later `fg`
      sends SIGCONT to that group. */
  lemma ReapedSuspendedJobStays(s: Slots, status: ChildStatus)
    requires s.suspended > 0 && s.suspended != s.running
    ensures SigChld(s, [Reaped(s.suspended, status)]) == Step(s, [])
    ensures MakeFg(s).effects == [Kill(-s.suspended, SIGCONT)]
  {
  }

  /** Why `TransitionsKeepValid` needs its condition on `fork`: after the
      suspended job is reaped its pid stays in the slot, and if `fork` hands
      that pid out again the new foreground job equals the suspended one;
      ctrl-z then swaps it with itself and it stays in the foreground. */
  lemma StaleSlotPidReuse(p: ChildPid, status: ChildStatus, cmdline: seq<char>)
    ensures var reaped := SigChld(Slots(NoJob, p), [Reaped(p, status)]);
      && reaped.slots == Slots(NoJob, p)
      && Launch(reaped.slots, Forked(p), false, cmdline).slots == Slots(p, p)
      && !Valid(Slots(p, p))
      && SigTstp(Slots(p, p))
        == Step(Slots(p, p), [Print(Stopped(p, SIGTSTP)), Kill(-(p as int), SIGTSTP), Kill(-(p as int), SIGCONT)])
  {
  }

  /** `fg` from the prompt when the suspended job dies between `makefg`'s
      `kill` and its swap: `sigchld_handler` sees an empty foreground slot
      and clears nothing, and the swap then puts the reaped pid in the
      foreground slot. Reports of other children and ctrl-c leave it there;
      only ctrl-z moves it out again. */
  lemma ReapBeforeFgSwap(p: ChildPid, status: ChildStatus, others: seq<Reaped>)
    requires forall i :: 0 <= i < |others| ==> others[i].pid != p
    ensures SigChld(Slots(NoJob, p), [Reaped(p, status)]) == Step(Slots(NoJob, p), [])
    ensures MakeFg(Slots(NoJob, p)).slots == Slots(p, NoJob)
    ensures SigChld(Slots(p, NoJob), others) == Step(Slots(p, NoJob), [])
    ensures SigInt(Slots(p, NoJob)).slots == Slots(p, NoJob)
    ensures SigTstp(Slots(p, NoJob)).slots == Slots(NoJob, p)
  {
  }
}
