/** Properties of `waitfg` and `eval`: `waitfg` against an independent
    replay of the events, the invariant on the slots, and what `eval` does
    with the lines a user types. */
module ShellProps {
  import opened Tokenizer
  import opened TokenizerProps
  import opened JobControl
  import opened JobControlProps
  import opened Shell

  /** Runs the handler of every event in order, ignoring the foreground
      slot and whether a handler exits. */
  function Replay(s: Slots, events: seq<Event>): Step
    decreases |events|
  {
    if events == [] then Step(s, [])
    else
      var d := Deliver(s, events[0]);
      var rest := Replay(d.slots, events[1..]);
      Step(rest.slots, d.effects + rest.effects)
  }

  /** Replaying a non-empty prefix: the first event, then the rest of the prefix. */
  lemma ReplayPrefix(s: Slots, events: seq<Event>, j: nat)
    requires 1 <= j <= |events|
    ensures var d := Deliver(s, events[0]);
      var rest := Replay(d.slots, events[1..][..j - 1]);
      Replay(s, events[..j]) == Step(rest.slots, d.effects + rest.effects)
  {
    assert events[..j][0] == events[0];
    assert events[..j][1..] == events[1..][..j - 1];
  }

  /** `waitfg` is the replay of the events it consumed, and it stops at the
      first one after which the foreground slot is empty: before each event
      it consumed, a foreground job was still there. */
  lemma {:induction false} WaitFgIsReplay(s: Slots, events: seq<Event>)
    ensures var r := WaitFg(s, events);
      && Replay(s, events[..r.consumed]) == Step(r.slots, r.effects)
      && forall j :: 0 <= j < r.consumed ==> Replay(s, events[..j]).slots.running != NoJob
    decreases |events|
  {
    var r := WaitFg(s, events);
    if s.running == NoJob || events == [] {
      assert events[..0] == [];
    } else {
      var d := Deliver(s, events[0]);
      assert events[..0] == [];
      ReplayPrefix(s, events, 1);
      if !Halts(d) {
        var rest := WaitFg(d.slots, events[1..]);
        WaitFgIsReplay(d.slots, events[1..]);
        ReplayPrefix(s, events, rest.consumed + 1);
        forall j | 1 <= j < r.consumed
          ensures Replay(s, events[..j]).slots.running != NoJob
        {
          ReplayPrefix(s, events, j);
        }
      }
    }
  }

  /** Once the foreground slot is empty, every handler but SIGQUIT's does
      nothing. So checking the slot after each handler, as the model does,
      ends in the same state as running several pending handlers inside one
      `sigsuspend` before the check. */
  lemma IdleEventsDoNothing(s: Slots, e: Event)
    requires s.running == NoJob && !e.QuitRequest?
    ensures Deliver(s, e) == Step(s, [])
  {
    if e.ChildChanged? {
      assert !exists i :: 0 <= i < |e.reaped| && e.reaped[i].pid == s.running;
    }
  }

  /** After the lost reap of `ReapBeforeFgSwap`, `waitfg` never returns on
      ctrl-c or on reports of other children: with none of ctrl-z, SIGQUIT
      or a report of the dead pid among the events, it consumes them all
      and is still asleep, with the slots unchanged; all it does is send
      SIGINT to the dead group once per ctrl-c. */
  lemma {:induction false} WaitFgOnReapedPid(p: ChildPid, events: seq<Event>)
    requires forall j :: 0 <= j < |events| ==>
      events[j] == Interrupt
      || (events[j].ChildChanged? && forall i :: 0 <= i < |events[j].reaped| ==> events[j].reaped[i].pid != p)
    ensures var o := WaitFg(Slots(p, NoJob), events);
      && o.slots == Slots(p, NoJob) && o.consumed == |events| && o.status == Blocked
      && forall k :: 0 <= k < |o.effects| ==> o.effects[k] == Kill(-(p as int), SIGINT)
    decreases |events|
  {
    if events != [] {
      var s := Slots(p, NoJob);
      var d := Deliver(s, events[0]);
      ReapBeforeFgSwap(p, Exited(0), if events[0].ChildChanged? then events[0].reaped else []);
      assert d.slots == s && forall k :: 0 <= k < |d.effects| ==> d.effects[k] == Kill(-(p as int), SIGINT);
      assert forall j :: 0 <= j < |events[1..]| ==> events[1..][j] == events[j + 1];
      WaitFgOnReapedPid(p, events[1..]);
      var rest := WaitFg(s, events[1..]);
      assert WaitFg(s, events) == Outcome(rest.slots, d.effects + rest.effects, rest.consumed + 1, rest.status);
    }
  }

  /** `fg`: after `makefg`'s SIGCONT, `waitfg` replays the events from the
      swapped slots and stops at the first one that empties the foreground
      slot. */
  lemma BuiltinFgIsReplay(s: Slots, argv: seq<Arg>, events: seq<Event>)
    requires argv != [] && argv[0] == FG
    ensures var m := MakeFg(s);
      var o := BuiltinCmd(s, argv, events).out;
      && m.effects <= o.effects
      && Replay(m.slots, events[..o.consumed]) == Step(o.slots, o.effects[|m.effects|..])
      && (forall j :: 0 <= j < o.consumed ==> Replay(m.slots, events[..j]).slots.running != NoJob)
      && forall j :: 0 <= j < o.consumed && events[j] == QuitRequest ==>
           o.status.Halted? && j == o.consumed - 1
  {
    var m := MakeFg(s);
    var w := WaitFg(m.slots, events);
    WaitFgIsReplay(m.slots, events);
    assert (m.effects + w.effects)[|m.effects|..] == w.effects;
  }

  /** A foreground command: the child fills the foreground slot, and `eval`
      ends in the replay of the events it consumed from there, stopping at
      the first one that empties the slot. */
  lemma EvalForegroundIsReplay(s: Slots, line: seq<char>, child: ChildPid, events: seq<Event>)
    requires |line| > 0
    requires var p := ParseLine(line);
      p.argv != [] && p.argv[0] != QUIT && p.argv[0] != FG && !p.bg
    ensures var launched := Slots(child, s.suspended);
      var o := Eval(s, line, Forked(child), events);
      && Replay(launched, events[..o.consumed]) == Step(o.slots, o.effects)
      && (forall j :: 0 <= j < o.consumed ==> Replay(launched, events[..j]).slots.running != NoJob)
      && forall j :: 0 <= j < o.consumed && events[j] == QuitRequest ==>
           o.status.Halted? && j == o.consumed - 1
  {
    WaitFgIsReplay(Slots(child, s.suspended), events);
  }

  /** Every handler keeps the slots valid. */
  lemma DeliverKeepsValid(s: Slots, e: Event)
    requires Valid(s)
    ensures Valid(Deliver(s, e).slots)
  {
  }

  /** `waitfg` keeps the slots valid whatever signals arrive. */
  lemma {:induction false} WaitFgKeepsValid(s: Slots, events: seq<Event>)
    requires Valid(s)
    ensures Valid(WaitFg(s, events).slots)
    decreases |events|
  {
    if s.running != NoJob && events != [] {
      DeliverKeepsValid(s, events[0]);
      WaitFgKeepsValid(Deliver(s, events[0]).slots, events[1..]);
    }
  }

  /** `eval` keeps the slots valid, given a `fork` that does not hand out
      the suspended job's pid. */
  lemma EvalKeepsValid(s: Slots, line: seq<char>, fork: ForkResult, events: seq<Event>)
    requires |line| > 0 && Valid(s)
    requires fork.Forked? ==> fork.child != s.suspended
    ensures Valid(Eval(s, line, fork, events).slots)
  {
    var p := ParseLine(line);
    if p.argv != [] {
      if p.argv[0] == FG {
        WaitFgKeepsValid(MakeFg(s).slots, events);
      } else if p.argv[0] != QUIT && fork.Forked? {
        WaitFgKeepsValid(Launch(s, fork, p.bg, line).slots, events);
      }
    }
  }

  /** A line of spaces, or an empty one, changes nothing and returns. */
  lemma EvalBlankLine(s: Slots, line: seq<char>, fork: ForkResult, events: seq<Event>)
    requires |line| > 0
    requires forall i :: 0 <= i < |line| - 1 ==> line[i] == SPACE
    ensures Eval(s, line, fork, events) == Outcome(s, [], 0, Returned)
  {
    ParseLineBlank(line);
  }

  /** The arguments a user can type, with a last one that is not taken for
      the background marker. */
  predicate Typable(args: seq<Arg>)
  {
    && args != []
    && (forall i :: 0 <= i < |args| ==> Renderable(args[i]))
    && !IsMarker(args[|args| - 1])
  }

  /** `quit`, with any arguments and even in the background, exits with
      status 0 before `fork` and before any signal is looked at. */
  lemma EvalQuit(s: Slots, args: seq<Arg>, bg: bool, fork: ForkResult, events: seq<Event>)
    requires Typable(args) && args[0] == QUIT
    ensures Eval(s, Format(Parsed(args, bg)), fork, events) == Outcome(s, [Exit(0)], 0, Halted(0))
  {
    ParseLineRoundTrip(args, bg);
  }

  /** A command typed with `&` is announced with its pid and the line as
      typed, and `eval` returns at once with the foreground slot empty. */
  lemma EvalBackground(s: Slots, args: seq<Arg>, child: ChildPid, events: seq<Event>)
    requires Typable(args) && args[0] != QUIT && args[0] != FG
    ensures var line := Format(Parsed(args, true));
      Eval(s, line, Forked(child), events)
        == Outcome(Slots(NoJob, s.suspended), [Print(Background(child, line))], 0, Returned)
  {
    ParseLineRoundTrip(args, true);
  }

  /** A foreground command occupies the foreground slot until the child is
      reaped; then `eval` returns having consumed exactly that event. */
  lemma EvalForegroundExits(s: Slots, args: seq<Arg>, child: ChildPid, code: int)
    requires Typable(args) && args[0] != QUIT && args[0] != FG
    ensures var line := Format(Parsed(args, false));
      && Eval(s, line, Forked(child), []) == Outcome(Slots(child, s.suspended), [], 0, Blocked)
      && Eval(s, line, Forked(child), [ChildChanged([Reaped(child, Exited(code))])])
        == Outcome(Slots(NoJob, s.suspended), [], 1, Returned)
  {
    ParseLineRoundTrip(args, false);
    var e := ChildChanged([Reaped(child, Exited(code))]);
    ForegroundLifecycle(s, child, code, Format(Parsed(args, false)));
    assert [e][1..] == [];
  }

  /** ctrl-z during a foreground command: the job is stopped and swapped
      into the suspended slot, and `eval` returns. */
  lemma EvalForegroundSuspended(s: Slots, args: seq<Arg>, child: ChildPid)
    requires Typable(args) && args[0] != QUIT && args[0] != FG
    requires s.suspended == NoJob
    ensures Eval(s, Format(Parsed(args, false)), Forked(child), [Suspend])
      == Outcome(Slots(NoJob, child),
                 [Print(Stopped(child, SIGTSTP)), Kill(-(child as int), SIGTSTP)],
                 1, Returned)
  {
    ParseLineRoundTrip(args, false);
    SuspendWithNothingSuspended(Slots(child, NoJob));
    assert [Suspend][1..] == [];
  }

  /** `fg` at the prompt continues the suspended job, moves it to the
      foreground slot and waits for it. */
  lemma EvalFgResumes(s: Slots, job: ChildPid, fork: ForkResult)
    requires s == Slots(NoJob, job)
    ensures Eval(s, Format(Parsed([FG], false)), fork, [])
      == Outcome(Slots(job, NoJob), [Kill(-(job as int), SIGCONT)], 0, Blocked)
  {
    ParseLineRoundTrip([FG], false);
  }
}
