/** The waits of the shell's pattern: with one child at a time no bound on tids
    is needed. */
module ShellWait {
  import opened Wrappers
  import opened Words
  import opened Ring
  import opened Scheduling
  import opened StaleHead
  import opened WaitSafety

  /** The flags that are set are those of the live child. */
  ghost predicate OneFlag<T(!new)>(s: Sched<T>, child: Option<T>, forked: set<T>) {
    && |s.running| == 0x200 && forked <= s.nodes.Keys && (child.Some? ==> child.value in s.nodes)
    && forall i :: 0 <= i < 0x200 ==>
         (s.running[i] <==> child.Some? && child.value in forked && s.nodes[child.value].tid == i)
  }

  lemma OneFlagFork<T(!new)>(s: Sched<T>, forked: set<T>, t: T, outcome: Outcome)
    requires Closed(s) && Enabled(s, Fork(t, outcome)) && Holds(OneFlag(s, None, forked))
    ensures Holds(OneFlag(After(s, Fork(t, outcome)), ChildAfter(None, Fork(t, outcome)),
                          ForkedWith(forked, Fork(t, outcome))))
  {
    var e, s' := Fork(t, outcome), After(s, Fork(t, outcome));
    assert At(s.nodes, s.head.value);
    if outcome == NoStack || outcome == Forked {
      InsertStates(s, t, t);
    }
    forall u | u in s.nodes ensures u in s'.nodes {
      TidStep(s, e, u);
    }
    forall i | 0 <= i < 0x200 ensures s'.running[i] <==> outcome == Forked && s.tid == i {
      FlagStep(s, e, i);
    }
  }

  lemma OneFlagExit<T(!new)>(s: Sched<T>, child: Option<T>, forked: set<T>)
    requires Closed(s) && Enabled<T>(s, Exit) && s.fg == child && Holds(OneFlag(s, child, forked))
    ensures Holds(OneFlag(After<T>(s, Exit), None, forked))
  {
    var s' := After<T>(s, Exit);
    forall u | u in s.nodes ensures u in s'.nodes {
      TidStep(s, Exit, u);
    }
    forall i | 0 <= i < 0x200 ensures !s'.running[i] {
      FlagStep<T>(s, Exit, i);
    }
  }

  lemma OneFlagTurn<T(!new)>(s: Sched<T>, child: Option<T>, forked: set<T>, e: Event<T>)
    requires Closed(s) && Enabled(s, e) && (e.Yield? || e.Dispatch?) && Holds(OneFlag(s, child, forked))
    ensures Holds(OneFlag(After(s, e), child, forked))
  {
    forall u | u in s.nodes ensures u in After(s, e).nodes && After(s, e).nodes[u].tid == s.nodes[u].tid {
      TidStep(s, e, u);
    }
    forall i | 0 <= i < 0x200 ensures After(s, e).running[i] == s.running[i] {
      FlagStep(s, e, i);
    }
  }

  lemma {:induction false} AlwaysOneFlag<T(!new)>(states: seq<Sched<T>>, events: seq<Event<T>>, first: T, n: nat)
    requires Run(states, events) && n <= |events| && PatternRun(states, events, first, n)
    ensures Holds(OneFlag(states[n], ChildOf(events, n), ForkedBy(events, n)))
  {
    if n > 0 {
      AlwaysOneFlag(states, events, first, n - 1);
      RunStep(states, events, n - 1);
      var s, e, child, forked := states[n - 1], events[n - 1], ChildOf(events, n - 1), ForkedBy(events, n - 1);
      assert forked + {} == forked;
      match e {
        case Fork(t, outcome) => OneFlagFork(s, forked, t, outcome);
        case Exit => OneFlagExit(s, child, forked);
        case _ => OneFlagTurn(s, child, forked, e);
      }
    }
  }

  /** In every state of a run of the pattern, however many tids it has used,
      is_running[i] is set exactly for the tid of the live child, if its fork was
      successful. */
  lemma PatternFlagIff<T(!new)>(states: seq<Sched<T>>, events: seq<Event<T>>, first: T, n: nat, i: nat)
    requires Run(states, events) && n <= |events| && PatternRun(states, events, first, n) && i < 0x200
    ensures |states[n].running| == 0x200
    ensures ChildOf(events, n).Some? ==> ChildOf(events, n).value in states[n].nodes
    ensures states[n].running[i] <==>
      ChildOf(events, n).Some? && ChildOf(events, n).value in ForkedBy(events, n)
      && states[n].nodes[ChildOf(events, n).value].tid == i
  {
    AlwaysOneFlag(states, events, first, n);
  }

  /** So the shell's wait for its last fork can return exactly if that child has
      exited, after any number of rounds. */
  lemma PatternWait<T(!new)>(states: seq<Sched<T>>, events: seq<Event<T>>, first: T, k: nat, n: nat)
    requires Run(states, events) && k < n <= |events| && PatternRun(states, events, first, n)
    requires events[k].Fork? && events[k].outcome == Forked
    requires forall m :: k < m < n ==> !events[m].Fork?
    ensures var r := ForkAnswer(states[k], Forked);
      0 <= r < |states[n].running| && (WaitReturns(states[n], r) <==> ChildOf(events, n) == None)
  {
    AlwaysOneFlag(states, events, first, n);
    RunStep(states, events, k);
    assert At(states[k].nodes, states[k].head.value);
    InsertStates(states[k], events[k].child, events[k].child);
    TidKept(states, events, k + 1, n, events[k].child);
    ForkedStays(events, k, n);
    ChildSince(events, k, n);
  }

  lemma {:induction false} ChildSince<T(!new)>(events: seq<Event<T>>, k: nat, n: nat)
    requires k < n <= |events| && events[k].Fork? && events[k].outcome == Forked
    requires forall m :: k < m < n ==> !events[m].Fork?
    ensures ChildOf(events, n) == None || ChildOf(events, n) == Some(events[k].child)
  {
    if k < n - 1 {
      ChildSince(events, k, n - 1);
    }
  }
}
