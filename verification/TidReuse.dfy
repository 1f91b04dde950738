/** A run that uses 257 tids, and why 256 is the exact bound for wait safety. */
module TidReuse {
  import opened Wrappers
  import opened Words
  import opened Ring
  import opened Scheduling
  import opened WaitSafety

  /** At the end of a run every successfully forked task can be waited for: the
      wait can return exactly if the task has exited. */
  ghost predicate EndsSafe(states: seq<Sched<nat>>, events: seq<Event<nat>>)
    requires Run(states, events)
  {
    var s := states[|events|];
    forall t :: t in ForkedBy(events, |events|) ==>
      t in s.nodes && s.nodes[t].tid < |s.running|
      && (WaitReturns(s, s.nodes[t].tid) <==> t in ExitedBy(states, events, |events|))
  }

  /** A run from boot that hands out at most b tids */
  ghost predicate Uses(states: seq<Sched<nat>>, events: seq<Event<nat>>, b: nat) {
    Run(states, events) && states[0] == Init(0) && Created(events, |events|) <= b
  }

  /** t as a uint8_t, for t below 512 */
  function Tid8(t: nat): nat {
    if t < 256 then t else t - 256
  }

  /** Task 0 has the processor and has forked k children, 1 to k. */
  ghost predicate Crowded(s: Sched<nat>, k: nat) {
    && Closed(s) && s.fg == Some(0) && s.head.Some?
    && k <= 256 && s.tid == Tid8(k + 1)
    && (forall t :: t in s.nodes <==> 0 <= t <= k)
    && (forall t {:trigger s.nodes[t].tid} :: 0 <= t <= k ==> s.nodes[t].tid == Tid8(t))
    && s.nodes[0].state == Running
  }

  ghost function Start(): (s: Sched<nat>)
    ensures Closed(Init(0)) && Enabled(Init(0), Dispatch(1)) && s == After(Init(0), Dispatch(1))
    ensures Crowded(s, 0)
  {
    assert Advance(Init<nat>(0).nodes, 0, 0) == 0;
    assert Advance(Init<nat>(0).nodes, 0, 1) == 0;
    After(Init(0), Dispatch(1))
  }

  lemma CrowdedFork(s: Sched<nat>, k: nat)
    requires Crowded(s, k) && k < 256
    ensures Enabled(s, Fork(k + 1, Forked)) && Crowded(After(s, Fork(k + 1, Forked)), k + 1)
  {
    var s' := After(s, Fork(k + 1, Forked));
    AfterClosed(s, Fork(k + 1, Forked));
    assert At(s.nodes, s.head.value);
    forall t: nat | t <= k + 1 ensures t in s'.nodes && s'.nodes[t].tid == Tid8(t) {
      InsertStates(s, k + 1, t);
    }
    InsertStates(s, k + 1, 0);
  }

  ghost function WithFork(s: Sched<nat>, k: nat): (s': Sched<nat>)
    requires Holds(Crowded(s, k)) && k < 256
    ensures Closed(s) && Enabled(s, Fork(k + 1, Forked)) && s' == After(s, Fork(k + 1, Forked))
    ensures Holds(Crowded(s', k + 1))
  {
    CrowdedFork(s, k);
    After(s, Fork(k + 1, Forked))
  }

  /** The state after the dispatch and k forks */
  ghost function AfterForks(k: nat): (s: Sched<nat>)
    requires k <= 256
    ensures Holds(Crowded(s, k))
  {
    if k == 0 then Start() else WithFork(AfterForks(k - 1), k - 1)
  }

  /** One dispatch, k forks. */
  function Forks(k: nat): seq<Event<nat>> {
    [Dispatch(1)] + seq(k, i => Fork(i + 1, Forked))
  }

  ghost function ForkStates(k: nat): seq<Sched<nat>>
    requires k <= 256
  {
    [Init(0)] + seq(k + 1, i requires 0 <= i <= k => AfterForks(i))
  }

  /** Event i of the run and the states around it */
  lemma ForkEdge(i: nat, k: nat)
    requires i <= k <= 256
    ensures ForkStates(k)[i] == if i == 0 then Init(0) else AfterForks(i - 1)
    ensures ForkStates(k)[i + 1] == AfterForks(i)
    ensures Forks(k)[i] == if i == 0 then Dispatch(1) else Fork(i, Forked)
  {
    StateAt(i, k);
    if i > 0 {
      StateAt(i - 1, k);
      Prefixed(Dispatch(1), seq(k, i => Fork(i + 1, Forked)), i - 1);
    }
  }

  lemma StateAt(i: nat, k: nat)
    requires i <= k <= 256
    ensures ForkStates(k)[0] == Init(0) && ForkStates(k)[i + 1] == AfterForks(i)
  {
    Prefixed(Init(0), seq(k + 1, i requires 0 <= i <= k => AfterForks(i)), i);
  }

  lemma Prefixed<T>(x: T, tail: seq<T>, i: nat)
    requires i < |tail|
    ensures ([x] + tail)[0] == x && ([x] + tail)[i + 1] == tail[i]
  {
  }

  ghost predicate IsStep(s: Sched<nat>, e: Event<nat>, s': Sched<nat>) {
    Closed(s) && Enabled(s, e) && s' == After(s, e)
  }

  lemma ForkEdgeStep(i: nat, k: nat)
    requires i <= k <= 256
    ensures Holds(IsStep(ForkStates(k)[i], Forks(k)[i], ForkStates(k)[i + 1]))
  {
    ForkEdge(i, k);
    if i == 0 {
      assert AfterForks(0) == Start();
    } else {
      assert AfterForks(i) == WithFork(AfterForks(i - 1), i - 1);
    }
  }

  lemma ForksRun(k: nat)
    requires k <= 256
    ensures Run(ForkStates(k), Forks(k)) && ForkStates(k)[0] == Init(0)
  {
    forall i | 0 <= i < k + 2 ensures Closed(ForkStates(k)[i]) {
      ForkEdge(if i == 0 then 0 else i - 1, k);
      assert Closed(Start());
      assert i > 0 ==> Holds(Crowded(AfterForks(i - 1), i - 1));
    }
    forall i | 0 <= i < k + 1
      ensures Enabled(ForkStates(k)[i], Forks(k)[i])
      ensures ForkStates(k)[i + 1] == After(ForkStates(k)[i], Forks(k)[i])
    {
      ForkEdgeStep(i, k);
    }
  }

  lemma {:induction false} ForksCreated(k: nat, n: nat)
    requires n <= k + 1
    ensures Created(Forks(k), n) == if n == 0 then 1 else n
    ensures n > 1 ==> n - 1 in ForkedBy(Forks(k), n)
  {
    if n > 0 {
      ForksCreated(k, n - 1);
    }
  }

  // ------------------------------------------------------------------ 257 tids

  ghost function WrapStates(k: nat): seq<Sched<nat>>
    requires k <= 256
  {
    ForkStates(k) + [UnlinkOf(AfterForks(k), 0)]
  }

  /** One dispatch, k forks, and the exit of task 0 */
  function WrapEvents(k: nat): seq<Event<nat>> {
    Forks(k) + [Exit]
  }

  lemma ExitStep(s: Sched<nat>, k: nat)
    requires Holds(Crowded(s, k)) && k == 256
    ensures Closed(s) && 0 in s.nodes && Holds(IsStep(s, Exit, UnlinkOf(s, 0)))
    ensures var s' := UnlinkOf(s, 0);
      Closed(s') && k in s'.nodes && s'.nodes[k].tid == 0
      && |s'.running| == 0x200 && WaitReturns(s', 0)
  {
    assert At(s.nodes, 0);
    AfterClosed(s, Exit);
    ExitStates(s, 0, k);
    assert s.nodes[0].tid == Tid8(0) && s.nodes[k].tid == Tid8(k);
  }

  lemma WrapRun(k: nat)
    requires k == 256
    ensures Run(WrapStates(k), WrapEvents(k)) && WrapStates(k)[0] == Init(0)
  {
    ForksRun(k);
    ForkEdge(k, k);
    ExitStep(AfterForks(k), k);
    Extends(ForkStates(k), Forks(k), Exit, UnlinkOf(AfterForks(k), 0));
  }

  lemma Extends(ss: seq<Sched<nat>>, es: seq<Event<nat>>, e: Event<nat>, s': Sched<nat>)
    requires Run(ss, es) && Holds(IsStep(ss[|es|], e, s')) && Closed(s')
    ensures Run(ss + [s'], es + [e])
  {
  }

  /** Task 256 has been forked, has tid 0 and has not exited, and yet the wait
      for it returns: task 0, which has the same tid, has exited. */
  lemma WrapUnsafe(k: nat)
    requires k == 256
    ensures Uses(WrapStates(k), WrapEvents(k), 257)
    ensures !EndsSafe(WrapStates(k), WrapEvents(k))
  {
    WrapRun(k);
    ExitStep(AfterForks(k), k);
    WrapHistory(k);
    var s := WrapStates(k)[|WrapEvents(k)|];
    assert s == UnlinkOf(AfterForks(k), 0);
    assert k in ForkedBy(WrapEvents(k), k + 2) && k in s.nodes;
  }

  lemma WrapHistory(k: nat)
    requires k == 256
    ensures Run(WrapStates(k), WrapEvents(k))
    ensures Created(WrapEvents(k), k + 2) == k + 1 && k in ForkedBy(WrapEvents(k), k + 2)
    ensures k !in ExitedBy(WrapStates(k), WrapEvents(k), k + 2)
  {
    WrapRun(k);
    ForkEdge(k, k);
    assert Holds(Crowded(AfterForks(k), k));
    History(WrapStates(k), WrapEvents(k), k);
  }

  lemma History(ss: seq<Sched<nat>>, es: seq<Event<nat>>, k: nat)
    requires k > 0 && Run(ss, es) && es == Forks(k) + [Exit] && ss[k + 1].fg == Some(0)
    ensures Created(es, k + 2) == k + 1 && k in ForkedBy(es, k + 2) && k !in ExitedBy(ss, es, k + 2)
  {
    SamePrefix(Forks(k), es, k + 1);
    ForksCreated(k, k + 1);
    NoneExited(ss, es, k + 1);
    assert es[k + 1] == Exit;
  }

  lemma {:induction false} SamePrefix(a: seq<Event<nat>>, b: seq<Event<nat>>, n: nat)
    requires n <= |a| && n <= |b| && forall i :: 0 <= i < n ==> a[i] == b[i]
    ensures Created(a, n) == Created(b, n) && ForkedBy(a, n) == ForkedBy(b, n)
  {
    if n > 0 {
      SamePrefix(a, b, n - 1);
    }
  }

  lemma {:induction false} NoneExited(ss: seq<Sched<nat>>, es: seq<Event<nat>>, n: nat)
    requires Run(ss, es) && n <= |es| && forall i :: 0 <= i < n ==> es[i] != Exit
    ensures ExitedBy(ss, es, n) == {}
  {
    if n > 0 {
      NoneExited(ss, es, n - 1);
    }
  }

  /** 256 tids are exactly what wait safety bears. */
  lemma SafeIff(b: nat)
    ensures (forall states, events :: Uses(states, events, b) ==> EndsSafe(states, events)) <==> b <= 256
  {
    if b <= 256 {
      forall states, events | Uses(states, events, b) ensures EndsSafe(states, events) {
        WaitSafe(states, events, 0, |events|);
      }
    } else {
      WrapUnsafe(256);
      assert Uses(WrapStates(256), WrapEvents(256), b);
    }
  }
}
