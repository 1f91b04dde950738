/** is_running and task_wait over whole runs. */
module WaitSafety {
  import opened Words
  import opened Ring
  import opened Scheduling

  /** One more tid is consumed by a fork that gets its frames. */
  function CreatedWith<T>(created: nat, e: Event<T>): nat {
    created + if e.Fork? && e.outcome != NoFrames then 1 else 0
  }

  function ForkedWith<T(!new)>(forked: set<T>, e: Event<T>): set<T> {
    forked + if e.Fork? && e.outcome == Forked then {e.child} else {}
  }

  function ExitedWith<T(!new)>(exited: set<T>, s: Sched<T>, e: Event<T>): set<T>
    requires e == Exit ==> s.fg.Some?
  {
    exited + if e.Exit? then {s.fg.value} else {}
  }

  /** The tids consumed by the first n events, the first task's included. */
  ghost function Created<T(!new)>(events: seq<Event<T>>, n: nat): nat
    requires n <= |events|
  {
    if n == 0 then 1 else CreatedWith(Created(events, n - 1), events[n - 1])
  }

  /** The tasks whose task_fork has succeeded within the first n events. */
  ghost function ForkedBy<T(!new)>(events: seq<Event<T>>, n: nat): set<T>
    requires n <= |events|
  {
    if n == 0 then {} else ForkedWith(ForkedBy(events, n - 1), events[n - 1])
  }

  /** The tasks that have run task_exit within the first n events. */
  ghost function ExitedBy<T(!new)>(states: seq<Sched<T>>, events: seq<Event<T>>, n: nat): set<T>
    requires Run(states, events) && n <= |events|
  {
    if n == 0 then {}
    else ExitedWith(ExitedBy(states, events, n - 1), states[n - 1], events[n - 1])
  }

  /** task_wait(td) spins while is_running[td]; this is when it can return. */
  predicate WaitReturns<T>(s: Sched<T>, td: nat)
    requires td < |s.running|
  {
    !s.running[td]
  }

  /** tids are distinct and below `created`. */
  ghost predicate TidsOk<T(!new)>(nodes: map<T, Node<T>>, created: nat) {
    && (forall t {:trigger nodes[t].tid} :: t in nodes ==> nodes[t].tid < created)
    && (forall t, u {:trigger nodes[t].tid, nodes[u].tid} :: t in nodes && u in nodes && t != u ==>
          nodes[t].tid != nodes[u].tid)
  }

  /** The exited tasks are the stopped ones. */
  ghost predicate StatesOk<T(!new)>(nodes: map<T, Node<T>>, exited: set<T>) {
    forall t {:trigger nodes[t].state} :: t in nodes ==> (t in exited <==> nodes[t].state == Stopped)
  }

  /** is_running holds for a forked task until it has exited, and for no other tid. */
  ghost predicate FlagsOk<T(!new)>(nodes: map<T, Node<T>>, running: seq<bool>, forked: set<T>, exited: set<T>) {
    && |running| == 0x200
    && (forall t {:trigger t in forked} :: t in forked ==>
          t in nodes && nodes[t].tid < 0x200 && (running[nodes[t].tid] <==> t !in exited))
    && (forall i :: 0 <= i < |running| && running[i] ==> Owned(nodes, forked, i))
  }

  ghost predicate Owned<T(!new)>(nodes: map<T, Node<T>>, forked: set<T>, i: nat) {
    exists t :: t in forked && t in nodes && nodes[t].tid == i
  }

  /** What holds while at most 256 tids have been handed out. */
  ghost predicate Tracked<T(!new)>(s: Sched<T>, created: nat, forked: set<T>, exited: set<T>) {
    && Closed(s) && s.head.Some? && 1 <= created <= 256 && s.tid == created % 256
    && TidsOk(s.nodes, created) && StatesOk(s.nodes, exited) && exited <= s.nodes.Keys
    && FlagsOk(s.nodes, s.running, forked, exited)
  }

  lemma InitTracked<T(!new)>(first: T)
    ensures Holds(Tracked(Init(first), 1, {}, {}))
  {
  }

  /** Nodes change, but no tid does and no task goes away. */
  ghost predicate SameTids<T(!new)>(a: map<T, Node<T>>, b: map<T, Node<T>>) {
    forall t {:trigger t in a} :: t in a ==> t in b && b[t].tid == a[t].tid
  }

  lemma OwnedKept<T(!new)>(a: map<T, Node<T>>, b: map<T, Node<T>>, f: set<T>, g: set<T>, i: nat)
    requires SameTids(a, b) && f <= g && Owned(a, f, i)
    ensures Owned(b, g, i)
  {
    var t :| t in f && t in a && a[t].tid == i;
    assert t in g && t in b && b[t].tid == i;
  }

  /** A new task with tid `tid`, that no task in the heap has. */
  lemma FlagsFork<T(!new)>(a: map<T, Node<T>>, b: map<T, Node<T>>, running: seq<bool>, forked: set<T>, exited: set<T>,
                           child: T, tid: nat)
    requires FlagsOk(a, running, forked, exited) && SameTids(a, b) && child !in a && child in b && b[child].tid == tid
    requires tid < 256 && child !in exited && forall t {:trigger t in a} :: t in a ==> a[t].tid != tid
    ensures FlagsOk(b, running, forked, exited)
    ensures FlagsOk(b, running[tid := true], forked + {child}, exited)
  {
    forall i | 0 <= i < |running| && running[i] ensures Owned(b, forked, i) && Owned(b, forked + {child}, i) {
      OwnedKept(a, b, forked, forked, i);
      OwnedKept(a, b, forked, forked + {child}, i);
    }
    assert Owned(b, forked + {child}, tid) by {
      assert child in forked + {child} && child in b && b[child].tid == tid;
    }
    forall t | t in forked + {child}
      ensures t in b && b[t].tid < 0x200 && (running[tid := true][b[t].tid] <==> t !in exited)
    {
      if t != child { assert t in forked && t in a; }
    }
  }

  lemma FlagsExit<T(!new)>(a: map<T, Node<T>>, b: map<T, Node<T>>, running: seq<bool>, forked: set<T>, exited: set<T>,
                           x: T)
    requires FlagsOk(a, running, forked, exited) && SameTids(a, b) && x in a && a[x].tid < 0x200
    requires forall t {:trigger t in a} :: t in a && t != x ==> a[t].tid != a[x].tid
    ensures FlagsOk(b, running[a[x].tid := false], forked, exited + {x})
  {
    forall i | 0 <= i < |running| && running[i] ensures Owned(b, forked, i) {
      OwnedKept(a, b, forked, forked, i);
    }
    forall t | t in forked
      ensures t in b && b[t].tid < 0x200 && (running[a[x].tid := false][b[t].tid] <==> t !in exited + {x})
    {
      assert t in a;
    }
  }

  lemma FlagsTurn<T(!new)>(a: map<T, Node<T>>, b: map<T, Node<T>>, running: seq<bool>, forked: set<T>, exited: set<T>)
    requires FlagsOk(a, running, forked, exited) && SameTids(a, b)
    ensures FlagsOk(b, running, forked, exited)
  {
    forall i | 0 <= i < |running| && running[i] ensures Owned(b, forked, i) {
      OwnedKept(a, b, forked, forked, i);
    }
    forall t | t in forked ensures t in b && b[t].tid < 0x200 && (running[b[t].tid] <==> t !in exited) {
      assert t in a;
    }
  }

  /** b is a with a new task of the given tid, other tasks keeping tid and state. */
  ghost predicate Added<T(!new)>(a: map<T, Node<T>>, b: map<T, Node<T>>, child: T, tid: nat) {
    && child !in a && child in b && b[child].tid == tid && b[child].state != Stopped
    && b.Keys == a.Keys + {child}
    && SameTids(a, b) && SameStates(a, b)
  }

  ghost predicate SameStates<T(!new)>(a: map<T, Node<T>>, b: map<T, Node<T>>) {
    forall t {:trigger t in a} :: t in a ==> t in b && (b[t].state == Stopped <==> a[t].state == Stopped)
  }

  lemma InsertAdds<T(!new)>(s: Sched<T>, child: T)
    requires Closed(s) && child !in s.nodes && s.head.Some?
    ensures s.nodes[s.head.value].prev in s.nodes && Holds(Added(s.nodes, Insert(s, child).nodes, child, s.tid))
  {
    assert At(s.nodes, s.head.value);
    forall t | t in s.nodes
      ensures t in Insert(s, child).nodes && Insert(s, child).nodes[t].state == s.nodes[t].state
           && Insert(s, child).nodes[t].tid == s.nodes[t].tid
    {
      InsertStates(s, child, t);
    }
    InsertStates(s, child, child);
  }

  lemma TidsAdd<T(!new)>(a: map<T, Node<T>>, b: map<T, Node<T>>, created: nat, child: T, exited: set<T>)
    requires TidsOk(a, created) && StatesOk(a, exited) && Holds(Added(a, b, child, created)) && exited <= a.Keys
    ensures TidsOk(b, created + 1) && StatesOk(b, exited) && exited <= b.Keys
    ensures forall t {:trigger t in a} :: t in a ==> a[t].tid != created
  {
    forall t | t in b ensures t != child ==> t in a && b[t].tid == a[t].tid < created {
      assert t != child ==> t in a;
    }
    forall t | t in b ensures t in exited <==> b[t].state == Stopped {
      assert t != child ==> t in a;
    }
    forall t, u | t in b && u in b && t != u ensures b[t].tid != b[u].tid {
      assert t != child ==> t in a;
      assert u != child ==> u in a;
    }
  }

  lemma TrackFork<T(!new)>(s: Sched<T>, created: nat, forked: set<T>, exited: set<T>, child: T, outcome: Outcome)
    requires Tracked(s, created, forked, exited) && Enabled(s, Fork(child, outcome)) && outcome != NoFrames
    requires created + 1 <= 256
    ensures Holds(Tracked(After(s, Fork(child, outcome)), created + 1,
                          forked + (if outcome == Forked then {child} else {}), exited))
  {
    AfterClosed(s, Fork(child, outcome));
    assert forked + {} == forked;
    match outcome {
      case NoDirectory => TrackNoDirectory(s, created, forked, exited, child);
      case NoStack => TrackLinked(s, created, forked, exited, child);
      case Forked => TrackForked(s, created, forked, exited, child);
    }
  }

  lemma TrackNoDirectory<T(!new)>(s: Sched<T>, created: nat, forked: set<T>, exited: set<T>, child: T)
    requires Tracked(s, created, forked, exited) && Enabled(s, Fork(child, NoDirectory)) && created + 1 <= 256
    ensures Holds(Tracked(After(s, Fork(child, NoDirectory)), created + 1, forked, exited))
  {
    TidsLess(s.nodes, created);
  }

  lemma TrackForked<T(!new)>(s: Sched<T>, created: nat, forked: set<T>, exited: set<T>, child: T)
    requires Tracked(s, created, forked, exited) && Enabled(s, Fork(child, Forked)) && created + 1 <= 256
    requires Closed(After(s, Fork(child, Forked)))
    ensures Holds(Tracked(After(s, Fork(child, Forked)), created + 1, forked + {child}, exited))
  {
    TrackLinked(s, created, forked, exited, child);
  }

  /** The new task in the ring, with its flag and without */
  lemma TrackLinked<T(!new)>(s: Sched<T>, created: nat, forked: set<T>, exited: set<T>, child: T)
    requires Tracked(s, created, forked, exited) && Closed(s) && child !in s.nodes && created + 1 <= 256
    ensures s.head.Some? && s.nodes[s.head.value].prev in s.nodes
    ensures var b := Insert(s, child).nodes;
      && TidsOk(b, created + 1) && StatesOk(b, exited) && exited <= b.Keys
      && FlagsOk(b, s.running, forked, exited) && FlagsOk(b, s.running[s.tid := true], forked + {child}, exited)
  {
    InsertAdds(s, child);
    var b := Insert(s, child).nodes;
    TidsAdd(s.nodes, b, created, child, exited);
    FlagsFork(s.nodes, b, s.running, forked, exited, child, s.tid);
  }

  lemma TidsLess<T(!new)>(a: map<T, Node<T>>, created: nat)
    requires TidsOk(a, created)
    ensures TidsOk(a, created + 1)
  {
  }

  /** b is a with task x stopped. */
  ghost predicate Unlinked<T(!new)>(a: map<T, Node<T>>, b: map<T, Node<T>>, x: T) {
    && x in a && b.Keys == a.Keys && SameTids(a, b) && b[x].state == Stopped
    && forall t {:trigger t in a} :: t in a && t != x ==> b[t].state == a[t].state
  }

  lemma ExitUnlinks<T(!new)>(s: Sched<T>, x: T)
    requires Closed(s) && x in s.nodes
    ensures s.nodes[x].next in s.nodes && s.nodes[x].prev in s.nodes
    ensures Holds(Unlinked(s.nodes, ExitOf(s, x).nodes, x))
  {
    assert At(s.nodes, x);
    forall t | t in s.nodes
      ensures ExitOf(s, x).nodes.Keys == s.nodes.Keys
      ensures ExitOf(s, x).nodes[t].state == (if t == x then Stopped else s.nodes[t].state)
           && ExitOf(s, x).nodes[t].tid == s.nodes[t].tid
    {
      ExitStates(s, x, t);
    }
    ExitStates(s, x, x);
  }

  lemma TidsUnlink<T(!new)>(a: map<T, Node<T>>, b: map<T, Node<T>>, created: nat, x: T, exited: set<T>)
    requires TidsOk(a, created) && StatesOk(a, exited) && Holds(Unlinked(a, b, x)) && exited <= a.Keys
    ensures TidsOk(b, created) && StatesOk(b, exited + {x}) && exited + {x} <= b.Keys
    ensures forall t {:trigger t in a} :: t in a && t != x ==> a[t].tid != a[x].tid
  {
    forall t | t in b ensures t in a && b[t].tid == a[t].tid < created {}
    forall t | t in b ensures t in exited + {x} <==> b[t].state == Stopped {
      assert t in a;
    }
    forall t, u | t in b && u in b && t != u ensures b[t].tid != b[u].tid {
      assert t in a && u in a;
    }
  }

  lemma TrackExit<T(!new)>(s: Sched<T>, created: nat, forked: set<T>, exited: set<T>)
    requires Tracked(s, created, forked, exited) && Enabled(s, Exit)
    ensures Holds(Tracked(After(s, Exit), created, forked, exited + {s.fg.value}))
  {
    AfterClosed(s, Exit);
    var x := s.fg.value;
    assert At(s.nodes, x);
    ExitUnlinks(s, x);
    TidsUnlink(s.nodes, ExitOf(s, x).nodes, created, x, exited);
    FlagsExit(s.nodes, ExitOf(s, x).nodes, s.running, forked, exited, x);
  }

  lemma TidsSame<T(!new)>(a: map<T, Node<T>>, b: map<T, Node<T>>, created: nat, exited: set<T>)
    requires TidsOk(a, created) && StatesOk(a, exited) && SameTids(a, b) && SameStates(a, b) && b.Keys == a.Keys
    ensures TidsOk(b, created) && StatesOk(b, exited)
  {
    forall t | t in b ensures t in a && b[t].tid == a[t].tid < created {}
    forall t | t in b ensures t in exited <==> b[t].state == Stopped {
      assert t in a;
    }
    forall t, u | t in b && u in b && t != u ensures b[t].tid != b[u].tid {
      assert t in a && u in a;
    }
  }

  /** Yield and dispatch stop no task and start no stopped one. */
  lemma TrackTurn<T(!new)>(s: Sched<T>, created: nat, forked: set<T>, exited: set<T>, e: Event<T>)
    requires Tracked(s, created, forked, exited) && Enabled(s, e) && (e.Yield? || e.Dispatch?)
    ensures Holds(Tracked(After(s, e), created, forked, exited))
  {
    AfterClosed(s, e);
    var t := if e.Yield? then s.fg.value else Advance(s.nodes, s.fg.value, e.m);
    var b := SetState(s.nodes, t, if e.Yield? then Runnable else Running);
    assert SameTids(s.nodes, b) && SameStates(s.nodes, b) && b.Keys == s.nodes.Keys;
    TidsSame(s.nodes, b, created, exited);
    FlagsTurn(s.nodes, b, s.running, forked, exited);
  }

  lemma {:induction false} AlwaysTracked<T(!new)>(states: seq<Sched<T>>, events: seq<Event<T>>, first: T, n: nat)
    requires Run(states, events) && states[0] == Init(first) && n <= |events| && Created(events, n) <= 256
    ensures Holds(Tracked(states[n], Created(events, n), ForkedBy(events, n), ExitedBy(states, events, n)))
  {
    if n == 0 {
      InitTracked(first);
    } else {
      AlwaysTracked(states, events, first, n - 1);
      RunStep(states, events, n - 1);
      var s, e := states[n - 1], events[n - 1];
      TrackStep(s, Created(events, n - 1), ForkedBy(events, n - 1), ExitedBy(states, events, n - 1), e);
    }
  }

  lemma TrackStep<T(!new)>(s: Sched<T>, created: nat, forked: set<T>, exited: set<T>, e: Event<T>)
    requires Tracked(s, created, forked, exited) && Enabled(s, e)
    requires CreatedWith(created, e) <= 256
    ensures Holds(Tracked(After(s, e), CreatedWith(created, e), ForkedWith(forked, e), ExitedWith(exited, s, e)))
  {
    assert forked + {} == forked && exited + {} == exited;
    match e {
      case Fork(child, outcome) =>
        if outcome != NoFrames { TrackFork(s, created, forked, exited, child, outcome); }
      case Exit => TrackExit(s, created, forked, exited);
      case _ => TrackTurn(s, created, forked, exited, e);
    }
  }

  /** Wait safety: while at most 256 tids have been handed out, is_running[i] is
      set exactly when i is the tid of a successfully forked task that has not
      exited; so task_wait on a forked task returns exactly once it has exited. */
  lemma WaitSafe<T(!new)>(states: seq<Sched<T>>, events: seq<Event<T>>, first: T, n: nat)
    requires Run(states, events) && states[0] == Init(first) && n <= |events| && Created(events, n) <= 256
    ensures |states[n].running| == 0x200
    ensures forall t :: t in ForkedBy(events, n) ==>
      t in states[n].nodes && states[n].nodes[t].tid < 256
      && (WaitReturns(states[n], states[n].nodes[t].tid) <==> t in ExitedBy(states, events, n))
    ensures forall i :: 0 <= i < 0x200 && !WaitReturns(states[n], i) ==>
      exists t :: t in ForkedBy(events, n) && t !in ExitedBy(states, events, n)
               && t in states[n].nodes && states[n].nodes[t].tid == i
  {
    AlwaysTracked(states, events, first, n);
    var s, forked, exited := states[n], ForkedBy(events, n), ExitedBy(states, events, n);
    assert Tracked(s, Created(events, n), forked, exited);
    assert FlagsOk(s.nodes, s.running, forked, exited);
    forall i | 0 <= i < 0x200 && !WaitReturns(s, i)
      ensures exists t :: t in forked && t !in exited && t in s.nodes && s.nodes[t].tid == i
    {
      assert s.running[i] && Owned(s.nodes, forked, i);
      var t :| t in forked && t in s.nodes && s.nodes[t].tid == i;
      assert t !in exited;
    }
  }

  // ------------------------------------------------- what the flag always says

  /** Event k is a successful fork that gets tid i. */
  ghost predicate SetAt<T(!new)>(states: seq<Sched<T>>, events: seq<Event<T>>, k: nat, i: nat)
    requires Run(states, events) && k < |events|
  {
    events[k].Fork? && events[k].outcome == Forked && states[k].tid == i
  }

  /** Event k is the exit of a task with tid i. */
  ghost predicate ClearedAt<T(!new)>(states: seq<Sched<T>>, events: seq<Event<T>>, k: nat, i: nat)
    requires Run(states, events) && k < |events|
  {
    events[k].Exit? && states[k].nodes[states[k].fg.value].tid == i
  }

  /** A successful fork among the first n events got tid i, and no task with
      that tid has exited since. */
  ghost predicate SetSince<T(!new)>(states: seq<Sched<T>>, events: seq<Event<T>>, n: nat, i: nat)
    requires Run(states, events) && n <= |events|
  {
    exists k :: 0 <= k < n && SetAt(states, events, k, i)
      && forall m :: k < m < n ==> !ClearedAt(states, events, m, i)
  }

  /** In every run, however many tids it uses: is_running[i] is set exactly when
      the last fork or exit of a task with tid i was a successful fork. */
  lemma {:induction false} FlagIff<T(!new)>(states: seq<Sched<T>>, events: seq<Event<T>>, first: T, n: nat, i: nat)
    requires Run(states, events) && states[0] == Init(first) && n <= |events| && i < 0x200
    ensures |states[n].running| == 0x200 && (states[n].running[i] <==> SetSince(states, events, n, i))
  {
    if n > 0 {
      FlagIff(states, events, first, n - 1, i);
      RunStep(states, events, n - 1);
      FlagStep(states[n - 1], events[n - 1], i);
      SinceStep(states, events, n - 1, i);
    }
  }

  /** What one event does to a flag */
  lemma FlagStep<T(!new)>(s: Sched<T>, e: Event<T>, i: nat)
    requires Closed(s) && Enabled(s, e) && i < 0x200
    ensures |After(s, e).running| == 0x200
    ensures After(s, e).running[i] <==>
      (e.Fork? && e.outcome == Forked && s.tid == i)
      || (s.running[i] && !(e.Exit? && s.nodes[s.fg.value].tid == i))
  {
    assert s.head.Some? ==> At(s.nodes, s.head.value);
    assert s.fg.Some? ==> At(s.nodes, s.fg.value);
  }

  lemma SinceStep<T(!new)>(states: seq<Sched<T>>, events: seq<Event<T>>, n: nat, i: nat)
    requires Run(states, events) && n < |events|
    ensures SetSince(states, events, n + 1, i) <==>
      SetAt(states, events, n, i) || (SetSince(states, events, n, i) && !ClearedAt(states, events, n, i))
  {
    if SetSince(states, events, n, i) && !ClearedAt(states, events, n, i) {
      var k :| 0 <= k < n && SetAt(states, events, k, i)
        && forall m :: k < m < n ==> !ClearedAt(states, events, m, i);
      assert forall m :: k < m < n + 1 ==> !ClearedAt(states, events, m, i);
    }
  }

  // ------------------------------------------------------- waiting for a fork

  /** The tid of a task never changes. */
  lemma {:induction false} TidKept<T(!new)>(states: seq<Sched<T>>, events: seq<Event<T>>, k: nat, n: nat, t: T)
    requires Run(states, events) && k <= n <= |events| && t in states[k].nodes
    ensures t in states[n].nodes && states[n].nodes[t].tid == states[k].nodes[t].tid
    decreases n - k
  {
    if k < n {
      RunStep(states, events, k);
      TidStep(states[k], events[k], t);
      TidKept(states, events, k + 1, n, t);
    }
  }

  lemma TidStep<T(!new)>(s: Sched<T>, e: Event<T>, t: T)
    requires Closed(s) && Enabled(s, e) && t in s.nodes
    ensures t in After(s, e).nodes && After(s, e).nodes[t].tid == s.nodes[t].tid
  {
    assert s.head.Some? ==> At(s.nodes, s.head.value);
    assert s.fg.Some? ==> At(s.nodes, s.fg.value);
    match e {
      case Fork(child, outcome) =>
        if outcome == NoStack || outcome == Forked { InsertStates(s, child, t); }
      case Exit => ExitStates(s, s.fg.value, t);
      case _ =>
    }
  }

  lemma {:induction false} ForkedStays<T(!new)>(events: seq<Event<T>>, k: nat, n: nat)
    requires k < n <= |events| && events[k].Fork? && events[k].outcome == Forked
    ensures events[k].child in ForkedBy(events, n)
  {
    if k < n - 1 {
      ForkedStays(events, k, n - 1);
    }
  }

  /** task_wait(r) for the value r of an earlier task_fork, while at most 256
      tids have been handed out. A failed fork gives -1, which is no index of
      is_running: C leaves that call undefined. When only the stack could not be
      mapped it gives 0 and the wait returns at once. Otherwise the wait can
      return exactly once the child has exited. */
  lemma WaitForFork<T(!new)>(states: seq<Sched<T>>, events: seq<Event<T>>, first: T, k: nat, n: nat)
    requires Run(states, events) && states[0] == Init(first) && k < n <= |events| && Created(events, n) <= 256
    requires events[k].Fork?
    ensures var r := ForkAnswer(states[k], events[k].outcome);
      && |states[n].running| == 0x200
      && (0 <= r < 0x200 <==> events[k].outcome == NoStack || events[k].outcome == Forked)
      && (events[k].outcome == NoStack ==> WaitReturns(states[n], r))
      && (events[k].outcome == Forked ==>
            (WaitReturns(states[n], r) <==> events[k].child in ExitedBy(states, events, n)))
  {
    WaitSafe(states, events, first, n);
    RunStep(states, events, k);
    assert states[k].head.Some? ==> At(states[k].nodes, states[k].head.value);
    var child := events[k].child;
    match events[k].outcome {
      case Forked =>
        InsertStates(states[k], child, child);
        TidKept(states, events, k + 1, n, child);
        ForkedStays(events, k, n);
      case NoStack => ZeroNeverForked(states, events, first, n);
      case _ =>
    }
  }

  /** Tid 0 is the first task's, which nobody has forked. */
  lemma ZeroNeverForked<T(!new)>(states: seq<Sched<T>>, events: seq<Event<T>>, first: T, n: nat)
    requires Run(states, events) && states[0] == Init(first) && n <= |events| && Created(events, n) <= 256
    ensures |states[n].running| == 0x200 && WaitReturns(states[n], 0)
  {
    AlwaysTracked(states, events, first, n);
    var s, forked := states[n], ForkedBy(events, n);
    assert Tracked(s, Created(events, n), forked, ExitedBy(states, events, n));
    TidKept(states, events, 0, n, first);
    FirstNotForked(states, events, first, n);
    forall t | t in forked && t in s.nodes ensures s.nodes[t].tid != s.nodes[first].tid {}
    assert !Owned(s.nodes, forked, 0);
  }

  lemma {:induction false} FirstNotForked<T(!new)>(states: seq<Sched<T>>, events: seq<Event<T>>, first: T, n: nat)
    requires Run(states, events) && states[0] == Init(first) && n <= |events|
    ensures first !in ForkedBy(events, n)
  {
    if n > 0 {
      FirstNotForked(states, events, first, n - 1);
      RunStep(states, events, n - 1);
      TidKept(states, events, 0, n - 1, first);
    }
  }
}
