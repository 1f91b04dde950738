/** Runs of the kernel: every syscall body and every turn of the scheduler is
    one step. */
module Scheduling {
  import opened Wrappers
  import opened Words
  import opened Ring

  datatype Event<T> = Fork(child: T, outcome: Outcome) | Exit | Yield | Dispatch(m: nat)

  /** The state task_init reaches: one task, tid 0, alone in the ring. */
  function Init<T>(first: T): Sched<T> {
    Sched(map[first := Node(first, first, Runnable, 0)], Some(first), Some(first), 1, seq(0x200, _ => false))
  }

  /** fgtask has the processor; otherwise the scheduler has. */
  predicate Busy<T>(s: Sched<T>) {
    s.fg.Some? && s.fg.value in s.nodes && s.nodes[s.fg.value].state == Running
  }

  /** The events that can happen in s: syscalls come from the running task, a
      child is a new record, and the scheduler runs when no task does. */
  ghost predicate Enabled<T>(s: Sched<T>, e: Event<T>)
    requires Closed(s)
  {
    match e
    case Fork(child, _) => Busy(s) && child !in s.nodes && s.head.Some?
    case Exit => Busy(s)
    case Yield => Busy(s)
    case Dispatch(m) => !Busy(s) && s.fg.Some? && Chooses(s, m)
  }

  /** The linking at the end of task_alloc, from any closed state. */
  ghost function LinkOf<T>(s: Sched<T>, t: T): Sched<T>
    requires Closed(s) && t !in s.nodes
  {
    assert s.head.Some? ==> At(s.nodes, s.head.value);
    Insert(s, t)
  }

  /** task_exit, from any closed state. */
  ghost function UnlinkOf<T>(s: Sched<T>, t: T): Sched<T>
    requires Closed(s) && t in s.nodes
  {
    assert At(s.nodes, t);
    ExitOf(s, t)
  }

  lemma UnlinkIs<T>(s: Sched<T>, s': Sched<T>, t: T, n: T, p: T)
    requires Closed(s) && t in s.nodes && n == s.nodes[t].next && p == s.nodes[t].prev
    requires n in s.nodes && p in s.nodes
    requires s'.nodes == SetState(SetPrev(SetNext(s.nodes, p, n), n, p), t, Stopped)
    requires s'.running == s.running[s.nodes[t].tid := false]
    requires s'.fg == Some(n) && s'.head == s.head && s'.tid == s.tid
    ensures s' == UnlinkOf(s, t)
  {
  }

  lemma LinkIs<T>(s: Sched<T>, s': Sched<T>, t: T)
    requires Closed(s) && t !in s.nodes && s'.head == Some(t)
    requires s.head == None ==> s'.nodes == s.nodes[t := Node(t, t, Runnable, s.tid)]
    requires s.head.Some? ==>
      var h := s.head.value;
      var p := s.nodes[h].prev;
      p in s.nodes && s'.nodes == SetPrev(SetNext(s.nodes[t := Node(h, p, Runnable, s.tid)], p, t), h, t)
    requires s'.running == s.running && s'.fg == s.fg && s'.tid == (s.tid + 1) % 256
    ensures s' == LinkOf(s, t)
  {
  }

  /** task_fork by how far it gets: the tid is consumed once the two first frames
      are there, the task is in the ring once task_alloc is through, and
      is_running is set only at the very end. */
  ghost function ForkOf<T>(s: Sched<T>, child: T, outcome: Outcome): Sched<T>
    requires Closed(s) && child !in s.nodes && s.head.Some?
  {
    match outcome
    case NoFrames => s
    case NoDirectory => s.(tid := (s.tid + 1) % 256)
    case NoStack => LinkOf(s, child)
    case Forked => LinkOf(s, child).(running := s.running[s.tid := true])
  }

  /** What task_fork returns. */
  function ForkAnswer<T>(s: Sched<T>, outcome: Outcome): int {
    match outcome
    case NoFrames => -1
    case NoDirectory => -1
    case NoStack => 0
    case Forked => s.tid
  }

  ghost function After<T>(s: Sched<T>, e: Event<T>): Sched<T>
    requires Closed(s) && Enabled(s, e)
  {
    match e
    case Fork(child, outcome) => ForkOf(s, child, outcome)
    case Exit => UnlinkOf(s, s.fg.value)
    case Yield => YieldOf(s)
    case Dispatch(m) => DispatchOf(s, m)
  }

  lemma AfterLinked<T(!new)>(s: Sched<T>, e: Event<T>)
    requires Closed(s) && Enabled(s, e)
    ensures Linked(After(s, e).nodes)
  {
    var s' := After(s, e);
    forall t | At(s'.nodes, t) ensures s'.nodes[t].next in s'.nodes && s'.nodes[t].prev in s'.nodes {
      assert At(s.nodes, t) || t !in s.nodes;
      assert s.head.Some? ==> At(s.nodes, s.head.value);
      assert s.fg.Some? ==> At(s.nodes, s.fg.value);
    }
  }

  lemma AfterClosed<T(!new)>(s: Sched<T>, e: Event<T>)
    requires Closed(s) && Enabled(s, e)
    ensures Closed(After(s, e))
  {
    AfterLinked(s, e);
    assert s.head.Some? ==> At(s.nodes, s.head.value);
    assert s.fg.Some? ==> At(s.nodes, s.fg.value);
  }

  /** A run: states linked by enabled events. */
  ghost predicate Run<T(!new)>(states: seq<Sched<T>>, events: seq<Event<T>>) {
    && |states| == |events| + 1
    && (forall i :: 0 <= i < |states| ==> Closed(states[i]))
    && (forall i :: 0 <= i < |events| ==> Enabled(states[i], events[i]) && states[i + 1] == After(states[i], events[i]))
  }

  // ---------------------------------------------------------- one task at a time

  /** At most one task is RUNNING, and it is fgtask. */
  ghost predicate OneRunning<T(!new)>(s: Sched<T>) {
    forall t {:trigger s.nodes[t].state} :: t in s.nodes && s.nodes[t].state == Running ==> s.fg == Some(t)
  }

  lemma InsertStates<T(!new)>(s: Sched<T>, child: T, t: T)
    requires Closed(s) && child !in s.nodes && s.head.Some? && s.nodes[s.head.value].prev in s.nodes
    requires t in Insert(s, child).nodes
    ensures t == child || t in s.nodes
    ensures Insert(s, child).nodes[t].state == if t == child then Runnable else s.nodes[t].state
    ensures Insert(s, child).nodes[t].tid == if t == child then s.tid else s.nodes[t].tid
  {
  }

  lemma ExitStates<T(!new)>(s: Sched<T>, x: T, t: T)
    requires Closed(s) && x in s.nodes && s.nodes[x].next in s.nodes && s.nodes[x].prev in s.nodes
    requires t in s.nodes
    ensures t in ExitOf(s, x).nodes && ExitOf(s, x).nodes.Keys == s.nodes.Keys
    ensures ExitOf(s, x).nodes[t].state == if t == x then Stopped else s.nodes[t].state
    ensures ExitOf(s, x).nodes[t].tid == s.nodes[t].tid
  {
  }

  lemma AfterOneRunning<T(!new)>(s: Sched<T>, e: Event<T>)
    requires Closed(s) && Enabled(s, e) && OneRunning(s)
    ensures OneRunning(After(s, e))
  {
    var s' := After(s, e);
    assert s.head.Some? ==> At(s.nodes, s.head.value);
    assert s.fg.Some? ==> At(s.nodes, s.fg.value);
    forall t | t in s'.nodes && s'.nodes[t].state == Running ensures s'.fg == Some(t) {
      match e {
        case Fork(child, outcome) =>
          if outcome == NoStack || outcome == Forked { InsertStates(s, child, t); }
        case Exit =>
          ExitStates(s, s.fg.value, t);
        case Yield =>
        case Dispatch(m) =>
      }
    }
  }

  /** In every state of every run at most one task is RUNNING: fgtask. */
  lemma {:induction false} AlwaysOneRunning<T(!new)>(states: seq<Sched<T>>, events: seq<Event<T>>, first: T, i: nat)
    requires Run(states, events) && states[0] == Init(first) && i < |states|
    ensures OneRunning(states[i])
  {
    if i > 0 {
      AlwaysOneRunning(states, events, first, i - 1);
      RunStep(states, events, i - 1);
      AfterOneRunning(states[i - 1], events[i - 1]);
    }
  }

  lemma RunStep<T(!new)>(states: seq<Sched<T>>, events: seq<Event<T>>, i: nat)
    requires Run(states, events) && i < |events|
    ensures Closed(states[i]) && Enabled(states[i], events[i]) && states[i + 1] == After(states[i], events[i])
  {
  }

  // ------------------------------------------------------------------- dispatch

  /** The place reached from place i of a cycle after m advances. */
  function Place<T>(c: seq<T>, i: nat, m: nat): (p: nat)
    requires i < |c|
    ensures p < |c|
  {
    if m == 0 then i else Succ(c, Place(c, i, m - 1))
  }

  lemma {:induction false} PlaceIs<T>(c: seq<T>, i: nat, m: nat)
    requires i < |c| && m <= |c|
    ensures Place(c, i, m) == if i + m < |c| then i + m else i + m - |c|
  {
    if m > 0 { PlaceIs(c, i, m - 1); }
  }

  /** Along a cycle, m advances move m places. */
  lemma {:induction false} AdvanceOnCycle<T(!new)>(nodes: map<T, Node<T>>, c: seq<T>, i: nat, m: nat)
    requires Linked(nodes) && Cycle(nodes, c) && i < |c|
    ensures c[i] in nodes && Advance(nodes, c[i], m) == c[Place(c, i, m)]
  {
    if m > 0 {
      AdvanceOnCycle(nodes, c, i, m - 1);
      assert nodes[c[Place(c, i, m - 1)]].next == c[Succ(c, Place(c, i, m - 1))];
    }
  }

  /** If the cycle through fgtask holds a RUNNABLE task, the scheduler's skip loop
      finds one within the length of the cycle. */
  lemma DispatchFinds<T(!new)>(s: Sched<T>, c: seq<T>, i: nat, j: nat) returns (m: nat)
    requires Closed(s) && Cycle(s.nodes, c) && i < |c| && j < |c|
    requires s.fg == Some(c[i]) && s.nodes[c[j]].state == Runnable
    ensures 1 <= m <= |c| && Chooses(s, m)
  {
    var d := if j > i then j - i else j + |c| - i;
    AdvanceOnCycle(s.nodes, c, i, d);
    PlaceIs(c, i, d);
    m := LeastAdvance(s, d);
  }

  /** The least number of advances to a RUNNABLE task, given some number. */
  lemma {:induction false} LeastAdvance<T(!new)>(s: Sched<T>, d: nat) returns (m: nat)
    requires Closed(s) && s.fg.Some? && d >= 1
    requires s.nodes[Advance(s.nodes, s.fg.value, d)].state == Runnable
    ensures 1 <= m <= d && Chooses(s, m)
    decreases d
  {
    if i :| 1 <= i < d && s.nodes[Advance(s.nodes, s.fg.value, i)].state == Runnable {
      m := LeastAdvance(s, i);
    } else {
      m := d;
    }
  }

  // ---------------------------------------------------------------- round robin

  /** Every task of the cycle is live and the one at i has the processor. */
  ghost predicate AllLive<T(!new)>(s: Sched<T>, c: seq<T>, i: nat) {
    && Closed(s) && Cycle(s.nodes, c) && i < |c| && s.fg == Some(c[i])
    && forall j :: 0 <= j < |c| ==> s.nodes[c[j]].state == if j == i then Running else Runnable
  }

  lemma SetStateLinked<T(!new)>(nodes: map<T, Node<T>>, t: T, st: TaskState)
    requires Linked(nodes) && t in nodes
    ensures Linked(SetState(nodes, t, st))
  {
    forall x | At(SetState(nodes, t, st), x)
      ensures SetState(nodes, t, st)[x].next in nodes && SetState(nodes, t, st)[x].prev in nodes
    {
      assert At(nodes, x);
    }
  }

  /** One round: the running task yields, the scheduler dispatches. */
  ghost function Round<T(!new)>(s: Sched<T>): Sched<T>
    requires Closed(s) && s.fg.Some?
  {
    SetStateLinked(s.nodes, s.fg.value, Runnable);
    DispatchOf(YieldOf(s), 1)
  }

  lemma RoundMovesOn<T(!new)>(s: Sched<T>, c: seq<T>, i: nat)
    requires AllLive(s, c, i)
    ensures Enabled(s, Yield) && Closed(YieldOf(s)) && Enabled(YieldOf(s), Dispatch(1))
    ensures AllLive(Round(s), c, Succ(c, i))
  {
    var s1 := YieldOf(s);
    SetStateLinked(s.nodes, c[i], Runnable);
    SetStateLinked(s1.nodes, c[Succ(c, i)], Running);
    assert Advance(s1.nodes, c[i], 0) == c[i];
    assert Advance(s1.nodes, c[i], 1) == c[Succ(c, i)];
  }

  ghost function Rounds<T(!new)>(s: Sched<T>, c: seq<T>, i: nat, r: nat): (s': Sched<T>)
    requires AllLive(s, c, i)
    ensures Holds(AllLive(s', c, Place(c, i, r)))
  {
    if r == 0 then s
    else
      var s1 := Rounds(s, c, i, r - 1);
      RoundMovesOn(s1, c, Place(c, i, r - 1));
      Round(s1)
  }

  /** The task dispatched by round r. */
  ghost function Dispatched<T(!new)>(s: Sched<T>, c: seq<T>, i: nat, r: nat): Option<T>
    requires AllLive(s, c, i)
  {
    Rounds(s, c, i, r).fg
  }

  lemma DispatchedIs<T(!new)>(s: Sched<T>, c: seq<T>, i: nat, r: nat)
    requires AllLive(s, c, i) && r <= |c|
    ensures Dispatched(s, c, i, r) == Some(c[if i + r < |c| then i + r else i + r - |c|])
  {
    PlaceIs(c, i, r);
    assert Holds(AllLive(Rounds(s, c, i, r), c, Place(c, i, r)));
  }

  /** Fairness: in any |c| consecutive rounds every task of an all-live cycle is
      dispatched exactly once. */
  lemma RoundRobin<T(!new)>(s: Sched<T>, c: seq<T>, i: nat, j: nat)
    requires AllLive(s, c, i) && j < |c|
    ensures exists r :: 1 <= r <= |c| && Dispatched(s, c, i, r) == Some(c[j])
    ensures forall r, r' :: 1 <= r < r' <= |c| ==> Dispatched(s, c, i, r) != Dispatched(s, c, i, r')
  {
    var n := |c|;
    DispatchedIs(s, c, i, if j > i then j - i else j + n - i);
    forall r, r' | 1 <= r < r' <= n ensures Dispatched(s, c, i, r) != Dispatched(s, c, i, r') {
      DispatchedIs(s, c, i, r);
      DispatchedIs(s, c, i, r');
    }
  }
}
