/** The shell's first round, as a run: a fork, a switch to the child, its exit. */
module ShellRun {
  import opened Wrappers
  import opened Words
  import opened Ring
  import opened Scheduling
  import opened StaleHead
  import opened TidReuse

  /** Task 0 has the processor and one child, 1, at htask. */
  ghost predicate Pair(s: Sched<nat>, running: nat, other: TaskState) {
    && Closed(s) && s.head == Some(1) && s.fg == Some(running) && running < 2
    && s.nodes.Keys == {0, 1}
    && s.nodes[0].next == 1 && s.nodes[1].next == 0
    && s.nodes[0].state == (if running == 0 then other else Runnable)
    && s.nodes[1].state == (if running == 1 then Running else Runnable)
  }

  ghost function Forked1(): (s: Sched<nat>)
    ensures IsStep(Start(), Fork(1, Forked), s) && Pair(s, 0, Running)
  {
    CrowdedFork(Start(), 0);
    After(Start(), Fork(1, Forked))
  }

  ghost function Yielded(): (s: Sched<nat>)
    ensures IsStep(Forked1(), Yield, s) && Pair(s, 0, Runnable)
  {
    AfterClosed(Forked1(), Yield);
    After(Forked1(), Yield)
  }

  ghost function Switched(): (s: Sched<nat>)
    ensures IsStep(Yielded(), Dispatch(1), s) && Pair(s, 1, Runnable)
  {
    var y := Yielded();
    assert Advance(y.nodes, 0, 0) == 0;
    assert Advance(y.nodes, 0, 1) == 1;
    AfterClosed(y, Dispatch(1));
    After(y, Dispatch(1))
  }

  ghost function Exited(): (s: Sched<nat>)
    ensures IsStep(Switched(), Exit, s) && Closed(s)
  {
    AfterClosed(Switched(), Exit);
    After(Switched(), Exit)
  }

  /** A run of the pattern, its live child and its exited children */
  ghost predicate Shell(ss: seq<Sched<nat>>, es: seq<Event<nat>>, child: Option<nat>, dead: seq<nat>) {
    && Run(ss, es) && PatternRun(ss, es, 0, |es|)
    && ChildOf(es, |es|) == child && DeadOf(es, |es|) == dead
  }

  /** One event more */
  lemma Longer(ss: seq<Sched<nat>>, es: seq<Event<nat>>, child: Option<nat>, dead: seq<nat>, e: Event<nat>,
               s: Sched<nat>) returns (ts: seq<Sched<nat>>, fs: seq<Event<nat>>)
    requires Holds(Shell(ss, es, child, dead)) && IsStep(ss[|es|], e, s) && Closed(s)
    requires InPattern(ss[|es|], 0, child, e)
    ensures Holds(Shell(ts, fs, ChildAfter(child, e), DeadAfter(child, dead, e))) && ts[|fs|] == s
  {
    ts, fs := ss + [s], es + [e];
    Extends(ss, es, e, s);
    SameHistory(ss, es, ts, fs, |es|);
  }

  lemma {:induction false} SameHistory(ss: seq<Sched<nat>>, es: seq<Event<nat>>,
                                       ts: seq<Sched<nat>>, fs: seq<Event<nat>>, n: nat)
    requires Run(ss, es) && Run(ts, fs) && n <= |es| && es <= fs && ss <= ts
    ensures PatternRun(ss, es, 0, n) == PatternRun(ts, fs, 0, n)
    ensures ChildOf(es, n) == ChildOf(fs, n) && DeadOf(es, n) == DeadOf(fs, n)
  {
    if n > 0 {
      SameHistory(ss, es, ts, fs, n - 1);
    }
  }

  lemma ToTheChild() returns (ss: seq<Sched<nat>>, es: seq<Event<nat>>)
    ensures Holds(Shell(ss, es, Some(1), [])) && ss[|es|] == Switched()
  {
    ss, es := [Init(0)], [];
    assert Shell(ss, es, None, []);
    ss, es := Longer(ss, es, None, [], Dispatch(1), Start());
    ss, es := Longer(ss, es, None, [], Fork(1, Forked), Forked1());
    ss, es := Longer(ss, es, Some(1), [], Yield, Yielded());
    ss, es := Longer(ss, es, Some(1), [], Dispatch(1), Switched());
  }

  /** After the first child's exit no ring is left at htask. */
  lemma FirstExitBreaksRing() returns (ss: seq<Sched<nat>>, es: seq<Event<nat>>)
    ensures Run(ss, es) && PatternRun(ss, es, 0, |es|) && DeadOf(es, |es|) == [1]
    ensures forall d :: !IsRing(ss[|es|], d)
  {
    ss, es := ToTheChild();
    ss, es := Longer(ss, es, Some(1), [], Exit, Exited());
    PatternRingIff(ss, es, 0, |es|);
  }
}
