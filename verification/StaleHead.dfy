/** The shell's pattern: the first task never exits and forks again only once
    its child has exited. task_exit leaves htask on the exited child, so exited
    tasks come back into the ring; this is what then holds. */
module StaleHead {
  import opened Wrappers
  import opened Words
  import opened Ring
  import opened Scheduling

  /** The next-cycle from the first task. `dead` are the exited children, last
      one first: without a live child the last one is out of the cycle. */
  function Chain<T>(first: T, child: Option<T>, dead: seq<T>): seq<T> {
    match child
    case None => [first] + (if dead == [] then [] else dead[1..])
    case Some(c) => [first, c] + dead
  }

  /** After k >= 1 exits the cycle has k tasks without and k + 2 with a child. */
  lemma ChainLength<T>(first: T, child: Option<T>, dead: seq<T>)
    requires dead != []
    ensures |Chain(first, child, dead)| == |dead| + if child == None then 0 else 2
  {
  }

  ghost predicate Distinct<T(!new)>(first: T, child: Option<T>, dead: seq<T>) {
    && first !in dead && child != Some(first)
    && (child.Some? ==> child.value !in dead)
    && (forall i, j :: 0 <= i < j < |dead| ==> dead[i] != dead[j])
  }

  /** The links of the exited children: each to the one before it, the oldest to
      the first task. */
  ghost predicate DeadLinks<T(!new)>(nodes: map<T, Node<T>>, first: T, dead: seq<T>) {
    forall i :: 0 <= i < |dead| ==> DeadLink(nodes, first, dead, i)
  }

  ghost predicate DeadLink<T(!new)>(nodes: map<T, Node<T>>, first: T, dead: seq<T>, i: nat)
    requires i < |dead|
  {
    dead[i] in nodes && nodes[dead[i]].state == Stopped
    && nodes[dead[i]].next == if i + 1 < |dead| then dead[i + 1] else first
  }

  /** Where htask points and how it is linked. */
  ghost predicate HeadLinks<T(!new)>(s: Sched<T>, first: T, child: Option<T>, dead: seq<T>) {
    match child
    case None =>
      var h := if dead == [] then first else dead[0];
      && s.head == Some(h) && h in s.nodes && first in s.nodes && s.nodes[h].prev == first
      && s.nodes[first].next == if |dead| < 2 then first else dead[1]
    case Some(c) =>
      && s.head == Some(c) && c in s.nodes && first in s.nodes && s.nodes[c].prev == first
      && s.nodes[first].next == c
      && s.nodes[c].next == (if dead == [] then first else dead[0])
      && s.nodes[c].state != Stopped
  }

  ghost predicate Stale<T(!new)>(s: Sched<T>, first: T, child: Option<T>, dead: seq<T>) {
    && Closed(s) && Distinct(first, child, dead)
    && DeadLinks(s.nodes, first, dead) && HeadLinks(s, first, child, dead)
    && s.nodes[first].state != Stopped
    && s.fg.Some? && s.fg.value in Chain(first, child, dead)
    && s.nodes.Keys == (set t | t in dead) + {first} + (if child.Some? then {child.value} else {})
    && OneRunning(s)
  }

  lemma ChainDistinct<T(!new)>(first: T, child: Option<T>, dead: seq<T>)
    requires Distinct(first, child, dead)
    ensures forall i, j :: 0 <= i < j < |Chain(first, child, dead)| ==>
      Chain(first, child, dead)[i] != Chain(first, child, dead)[j]
  {
  }

  lemma ChainLink<T(!new)>(s: Sched<T>, first: T, child: Option<T>, dead: seq<T>, i: nat)
    requires DeadLinks(s.nodes, first, dead) && HeadLinks(s, first, child, dead)
    requires i < |Chain(first, child, dead)|
    ensures var c := Chain(first, child, dead);
      c[i] in s.nodes && s.nodes[c[i]].next == c[Succ(c, i)]
  {
    var c := Chain(first, child, dead);
    match child {
      case None =>
        if i > 0 { assert c[i] == dead[i] && DeadLink(s.nodes, first, dead, i); }
      case Some(x) =>
        if i + 1 < |c| && i > 0 { assert c[i + 1] == dead[i - 1]; }
        if i > 1 { assert c[i] == dead[i - 2] && DeadLink(s.nodes, first, dead, i - 2); }
    }
  }

  /** The chain really is a cycle of next links: a reader following next from the
      first task meets it, its live child and the exited tasks, and returns. */
  lemma StaleCycle<T(!new)>(s: Sched<T>, first: T, child: Option<T>, dead: seq<T>)
    requires Stale(s, first, child, dead)
    ensures Holds(Cycle(s.nodes, Chain(first, child, dead)))
  {
    var c := Chain(first, child, dead);
    ChainDistinct(first, child, dead);
    forall i | 0 <= i < |c| ensures c[i] in s.nodes && s.nodes[c[i]].next == c[Succ(c, i)] {
      ChainLink(s, first, child, dead, i);
    }
  }

  /** The events of the pattern: forks come from the first task while it has no
      child, exits from the child. */
  ghost predicate InPattern<T(!new)>(s: Sched<T>, first: T, child: Option<T>, e: Event<T>) {
    match e
    case Fork(_, _) => s.fg == Some(first) && child == None
    case Exit => s.fg == child
    case _ => true
  }

  ghost function ChildAfter<T(!new)>(child: Option<T>, e: Event<T>): Option<T> {
    match e
    case Fork(t, outcome) => if outcome == NoStack || outcome == Forked then Some(t) else child
    case Exit => None
    case _ => child
  }

  ghost function DeadAfter<T(!new)>(child: Option<T>, dead: seq<T>, e: Event<T>): seq<T> {
    if e == Exit && child.Some? then [child.value] + dead else dead
  }

  /** Steps that leave the exited children alone leave their links alone. */
  lemma DeadKept<T(!new)>(a: map<T, Node<T>>, b: map<T, Node<T>>, first: T, dead: seq<T>)
    requires DeadLinks(a, first, dead)
    requires forall t {:trigger t in dead} :: t in dead && t in a ==>
      t in b && b[t].next == a[t].next && b[t].state == a[t].state
    ensures DeadLinks(b, first, dead)
  {
    forall i | 0 <= i < |dead| ensures DeadLink(b, first, dead, i) {
      assert DeadLink(a, first, dead, i) && dead[i] in dead;
    }
  }

  lemma StaleFork<T(!new)>(s: Sched<T>, first: T, dead: seq<T>, t: T, outcome: Outcome)
    requires Stale(s, first, None, dead) && Enabled(s, Fork(t, outcome)) && s.fg == Some(first)
    requires outcome == NoStack || outcome == Forked
    ensures Holds(Stale(After(s, Fork(t, outcome)), first, Some(t), dead))
  {
    AfterClosed(s, Fork(t, outcome));
    AfterOneRunning(s, Fork(t, outcome));
    assert At(s.nodes, s.head.value);
    DeadKept(s.nodes, Insert(s, t).nodes, first, dead);
  }

  lemma StaleExit<T(!new)>(s: Sched<T>, first: T, c: T, dead: seq<T>)
    requires Stale(s, first, Some(c), dead) && Enabled(s, Exit) && s.fg == Some(c)
    ensures Holds(Stale(After(s, Exit), first, None, [c] + dead))
  {
    AfterClosed(s, Exit);
    AfterOneRunning(s, Exit);
    assert At(s.nodes, c);
    DeadKept(s.nodes, ExitOf(s, c).nodes, first, dead);
    var d := [c] + dead;
    forall i | 0 <= i < |d| ensures DeadLink(ExitOf(s, c).nodes, first, d, i) {
      if i > 0 { assert DeadLink(ExitOf(s, c).nodes, first, dead, i - 1) && d[i] == dead[i - 1]; }
    }
  }

  lemma StaleYield<T(!new)>(s: Sched<T>, first: T, child: Option<T>, dead: seq<T>)
    requires Stale(s, first, child, dead) && Enabled(s, Yield)
    ensures Holds(Stale(After(s, Yield), first, child, dead))
  {
    AfterClosed(s, Yield);
    AfterOneRunning(s, Yield);
    forall i | 0 <= i < |dead| ensures dead[i] != s.fg.value { assert DeadLink(s.nodes, first, dead, i); }
    DeadKept(s.nodes, YieldOf(s).nodes, first, dead);
  }

  lemma StaleDispatch<T(!new)>(s: Sched<T>, first: T, child: Option<T>, dead: seq<T>, m: nat)
    requires Stale(s, first, child, dead) && Enabled(s, Dispatch(m))
    ensures Holds(Stale(After(s, Dispatch(m)), first, child, dead))
  {
    AfterClosed(s, Dispatch(m));
    AfterOneRunning(s, Dispatch(m));
    StaysInChain(s, first, child, dead, m);
    Restated(s, After(s, Dispatch(m)), first, child, dead, Advance(s.nodes, s.fg.value, m));
  }

  lemma StaysInChain<T(!new)>(s: Sched<T>, first: T, child: Option<T>, dead: seq<T>, m: nat)
    requires Stale(s, first, child, dead)
    ensures Advance(s.nodes, s.fg.value, m) in Chain(first, child, dead)
  {
    StaleCycle(s, first, child, dead);
    var c := Chain(first, child, dead);
    var i :| 0 <= i < |c| && s.fg.value == c[i];
    AdvanceOnCycle(s.nodes, c, i, m);
  }

  /** Running a RUNNABLE task of the chain touches none of the links. */
  lemma Restated<T(!new)>(s: Sched<T>, s': Sched<T>, first: T, child: Option<T>, dead: seq<T>, t: T)
    requires Stale(s, first, child, dead) && t in s.nodes && s.nodes[t].state == Runnable
    requires t in Chain(first, child, dead)
    requires s' == s.(fg := Some(t), nodes := SetState(s.nodes, t, Running))
    requires Closed(s') && OneRunning(s')
    ensures Holds(Stale(s', first, child, dead))
  {
    assert t !in dead by {
      forall i | 0 <= i < |dead| ensures dead[i] != t { assert DeadLink(s.nodes, first, dead, i); }
    }
    DeadKept(s.nodes, s'.nodes, first, dead);
  }

  ghost predicate PatternRun<T(!new)>(states: seq<Sched<T>>, events: seq<Event<T>>, first: T, n: nat)
    requires Run(states, events) && n <= |events|
  {
    if n == 0 then states[0] == Init(first)
    else PatternRun(states, events, first, n - 1)
         && InPattern(states[n - 1], first, ChildOf(events, n - 1), events[n - 1])
  }

  /** The live child and the exited children after the first n events. */
  ghost function ChildOf<T(!new)>(events: seq<Event<T>>, n: nat): Option<T>
    requires n <= |events|
  {
    if n == 0 then None else ChildAfter(ChildOf(events, n - 1), events[n - 1])
  }

  ghost function DeadOf<T(!new)>(events: seq<Event<T>>, n: nat): seq<T>
    requires n <= |events|
  {
    if n == 0 then [] else DeadAfter(ChildOf(events, n - 1), DeadOf(events, n - 1), events[n - 1])
  }

  lemma StaleStep<T(!new)>(s: Sched<T>, first: T, child: Option<T>, dead: seq<T>, e: Event<T>)
    requires Stale(s, first, child, dead) && Enabled(s, e) && InPattern(s, first, child, e)
    ensures Holds(Stale(After(s, e), first, ChildAfter(child, e), DeadAfter(child, dead, e)))
  {
    match e {
      case Fork(t, outcome) =>
        if outcome == NoStack || outcome == Forked {
          StaleFork(s, first, dead, t, outcome);
        } else {
          AfterClosed(s, e);
        }
      case Exit => StaleExit(s, first, child.value, dead);
      case Yield => StaleYield(s, first, child, dead);
      case Dispatch(m) => StaleDispatch(s, first, child, dead, m);
    }
  }

  /** The invariant of the whole run. */
  lemma {:induction false} AlwaysStale<T(!new)>(states: seq<Sched<T>>, events: seq<Event<T>>, first: T, n: nat)
    requires Run(states, events) && n <= |events| && PatternRun(states, events, first, n)
    ensures Holds(Stale(states[n], first, ChildOf(events, n), DeadOf(events, n)))
  {
    if n == 0 {
      InitStale(first);
    } else {
      AlwaysStale(states, events, first, n - 1);
      RunStep(states, events, n - 1);
      StaleStep(states[n - 1], first, ChildOf(events, n - 1), DeadOf(events, n - 1), events[n - 1]);
    }
  }

  lemma InitStale<T(!new)>(first: T)
    ensures Holds(Stale(Init(first), first, None, []))
  {
  }

  /** In every state of a run of the pattern, after k exits: following next from
      the first task is a cycle that holds the first task and any live child,
      and for k >= 1 its length is k, or k + 2 with a child alive; no exited task
      but the last one is ever outside it. */
  lemma StaleHeadRing<T(!new)>(states: seq<Sched<T>>, events: seq<Event<T>>, first: T, n: nat) returns (c: seq<T>)
    requires Run(states, events) && n <= |events| && PatternRun(states, events, first, n)
    ensures Holds(Cycle(states[n].nodes, c)) && c[0] == first
    ensures ChildOf(events, n).Some? ==> |c| > 1 && c[1] == ChildOf(events, n).value
    ensures DeadOf(events, n) != [] ==> |c| == |DeadOf(events, n)| + if ChildOf(events, n) == None then 0 else 2
    ensures forall i :: 1 <= i < |DeadOf(events, n)| ==> DeadOf(events, n)[i] in c
  {
    AlwaysStale(states, events, first, n);
    StaleCycle(states[n], first, ChildOf(events, n), DeadOf(events, n));
    c := Chain(first, ChildOf(events, n), DeadOf(events, n));
    var dead := DeadOf(events, n);
    if dead != [] {
      ChainLength(first, ChildOf(events, n), dead);
    }
    forall i | 1 <= i < |dead| ensures dead[i] in c {
      if ChildOf(events, n) == None { assert c[i] == dead[i]; } else { assert c[i + 2] == dead[i]; }
    }
  }

  /** So the scheduler never hangs in such a run: whenever it is its turn, it
      finds a task within one trip around the cycle. */
  lemma PatternDispatches<T(!new)>(states: seq<Sched<T>>, events: seq<Event<T>>, first: T, n: nat) returns (m: nat)
    requires Run(states, events) && n <= |events| && PatternRun(states, events, first, n)
    requires Closed(states[n]) && !Busy(states[n])
    ensures states[n].fg.Some? && Enabled(states[n], Dispatch(m))
    ensures 1 <= m <= |DeadOf(events, n)| + 2
  {
    AlwaysStale(states, events, first, n);
    var s, child, dead := states[n], ChildOf(events, n), DeadOf(events, n);
    StaleCycle(s, first, child, dead);
    var c := Chain(first, child, dead);
    var i :| 0 <= i < |c| && s.fg.value == c[i];
    assert s.nodes[first].state == Runnable by {
      assert OneRunning(s);
      assert s.nodes[first].state != Stopped;
    }
    m := DispatchFinds(s, c, i, 0);
  }

  // ---------------------------------------------------------------- prev links

  /** The first exit bends the first task's prev link to itself, for good. */
  ghost predicate PrevLink<T(!new)>(s: Sched<T>, first: T, child: Option<T>, dead: seq<T>) {
    && first in s.nodes
    && s.nodes[first].prev == if dead == [] && child.Some? then child.value else first
  }

  lemma PrevStep<T(!new)>(s: Sched<T>, first: T, child: Option<T>, dead: seq<T>, e: Event<T>)
    requires Stale(s, first, child, dead) && PrevLink(s, first, child, dead)
    requires Enabled(s, e) && InPattern(s, first, child, e)
    ensures PrevLink(After(s, e), first, ChildAfter(child, e), DeadAfter(child, dead, e))
  {
    assert s.head.Some? ==> At(s.nodes, s.head.value);
    assert s.fg.Some? ==> At(s.nodes, s.fg.value);
    if dead != [] {
      assert DeadLink(s.nodes, first, dead, 0);
    }
  }

  lemma {:induction false} AlwaysPrev<T(!new)>(states: seq<Sched<T>>, events: seq<Event<T>>, first: T, n: nat)
    requires Run(states, events) && n <= |events| && PatternRun(states, events, first, n)
    ensures PrevLink(states[n], first, ChildOf(events, n), DeadOf(events, n))
  {
    if n > 0 {
      AlwaysPrev(states, events, first, n - 1);
      AlwaysStale(states, events, first, n - 1);
      RunStep(states, events, n - 1);
      PrevStep(states[n - 1], first, ChildOf(events, n - 1), DeadOf(events, n - 1), events[n - 1]);
    }
  }

  /** In such a run there is a doubly linked ring at htask exactly as long as no
      child has exited. */
  lemma PatternRingIff<T(!new)>(states: seq<Sched<T>>, events: seq<Event<T>>, first: T, n: nat)
    requires Run(states, events) && n <= |events| && PatternRun(states, events, first, n)
    ensures (exists d :: IsRing(states[n], d)) <==> DeadOf(events, n) == []
  {
    AlwaysStale(states, events, first, n);
    AlwaysPrev(states, events, first, n);
    var s, child, dead := states[n], ChildOf(events, n), DeadOf(events, n);
    if dead == [] {
      FreshRing(s, first, child);
    } else {
      forall d ensures !IsRing(s, d) {
        NoRing(s, first, child, dead, d);
      }
    }
  }

  lemma FreshRing<T(!new)>(s: Sched<T>, first: T, child: Option<T>)
    requires Stale(s, first, child, []) && PrevLink(s, first, child, [])
    ensures exists d :: IsRing(s, d)
  {
    var d := if child.Some? then [child.value, first] else [first];
    RingFrom(s, d);
    assert IsRing(s, d);
  }

  lemma NoRing<T(!new)>(s: Sched<T>, first: T, child: Option<T>, dead: seq<T>, d: seq<T>)
    requires Stale(s, first, child, dead) && PrevLink(s, first, child, dead) && dead != []
    ensures !IsRing(s, d)
  {
    assert |dead| > 1 ==> dead[0] != dead[1];
    if IsRing(s, d) {
      RingEnds(s, d);
    }
  }

  /** How the last task of a ring is linked */
  lemma RingEnds<T(!new)>(s: Sched<T>, c: seq<T>)
    requires IsRing(s, c)
    ensures var last := |c| - 1;
      && s.nodes[c[0]].prev == c[last] && s.nodes[c[last]].next == c[0]
      && (last > 0 ==> s.nodes[c[last]].prev == c[last - 1] && c[last - 1] != c[last])
  {
    var last := |c| - 1;
    assert Succ(c, last) == 0;
    assert last > 0 ==> Succ(c, last - 1) == last;
  }
}
