/** The task ring and scheduler of task.c on values: a heap of task records
    addressed by T, and the steps that task_alloc, task_fork, task_exit,
    task_yield and one turn of the scheduler take on it. */
module Ring {
  import opened Wrappers
  import opened Words

  datatype TaskState = Running | Runnable | Stopped

  datatype Node<T> = Node(next: T, prev: T, state: TaskState, tid: nat)

  /** The records, fgtask, htask, the static tid and is_running. */
  datatype Sched<T> = Sched(nodes: map<T, Node<T>>, fg: Option<T>, head: Option<T>, tid: nat, running: seq<bool>)

  /** How far task_alloc and task_fork got. */
  datatype Outcome = NoFrames | NoDirectory | NoStack | Forked

  predicate At<T>(nodes: map<T, Node<T>>, t: T) {
    t in nodes
  }

  /** Links stay inside the heap. (At is there to be instantiated on demand: left
      to itself the quantifier would follow next for ever.) */
  ghost predicate Linked<T>(nodes: map<T, Node<T>>) {
    forall t {:trigger At(nodes, t)} :: t in nodes && At(nodes, t) ==> nodes[t].next in nodes && nodes[t].prev in nodes
  }

  ghost predicate Closed<T>(s: Sched<T>) {
    && Linked(s.nodes)
    && (forall t {:trigger s.nodes[t].tid} :: t in s.nodes ==> s.nodes[t].tid < 256)
    && (s.fg.Some? ==> s.fg.value in s.nodes)
    && (s.head.Some? ==> s.head.value in s.nodes)
    && s.tid < 256 && |s.running| == 0x200
  }

  function SetNext<T>(nodes: map<T, Node<T>>, t: T, n: T): map<T, Node<T>>
    requires t in nodes
  {
    nodes[t := nodes[t].(next := n)]
  }

  function SetPrev<T>(nodes: map<T, Node<T>>, t: T, p: T): map<T, Node<T>>
    requires t in nodes
  {
    nodes[t := nodes[t].(prev := p)]
  }

  function SetState<T>(nodes: map<T, Node<T>>, t: T, st: TaskState): map<T, Node<T>>
    requires t in nodes
  {
    nodes[t := nodes[t].(state := st)]
  }

  /** task_alloc: t gets the next tid and is linked in just before htask, and
      htask moves to it. */
  function Insert<T>(s: Sched<T>, t: T): Sched<T>
    requires t !in s.nodes
    requires s.head.Some? ==> s.head.value in s.nodes && s.nodes[s.head.value].prev in s.nodes
  {
    var nodes :=
      match s.head
      case None => s.nodes[t := Node(t, t, Runnable, s.tid)]
      case Some(h) =>
        var p := s.nodes[h].prev;
        var linked := s.nodes[t := Node(h, p, Runnable, s.tid)];
        SetPrev(SetNext(linked, p, t), h, t);
    s.(nodes := nodes, head := Some(t), tid := (s.tid + 1) % 256)
  }

  /** task_exit: t is unlinked and stopped; fgtask moves on, htask does not. */
  function ExitOf<T>(s: Sched<T>, t: T): Sched<T>
    requires t in s.nodes && s.nodes[t].next in s.nodes && s.nodes[t].prev in s.nodes
    requires s.nodes[t].tid < |s.running|
  {
    var n, p := s.nodes[t].next, s.nodes[t].prev;
    s.(fg := Some(n),
       nodes := SetState(SetPrev(SetNext(s.nodes, p, n), n, p), t, Stopped),
       running := s.running[s.nodes[t].tid := false])
  }

  function YieldOf<T>(s: Sched<T>): Sched<T>
    requires s.fg.Some? ==> s.fg.value in s.nodes
  {
    match s.fg
    case None => s
    case Some(t) => s.(nodes := SetState(s.nodes, t, Runnable))
  }

  // ---------------------------------------------------------------- advances

  /** m steps along next. */
  ghost function Advance<T>(nodes: map<T, Node<T>>, t: T, m: nat): (r: T)
    requires t in nodes && Linked(nodes)
    ensures r in nodes
  {
    if m == 0 then t else
    assert At(nodes, Advance(nodes, t, m - 1));
    nodes[Advance(nodes, t, m - 1)].next
  }

  /** The scheduler's choice from s: the first RUNNABLE task after fgtask, m
      advances away. */
  ghost predicate Chooses<T>(s: Sched<T>, m: nat)
    requires Closed(s) && s.fg.Some?
  {
    && m >= 1
    && s.nodes[Advance(s.nodes, s.fg.value, m)].state == Runnable
    && forall i :: 1 <= i < m ==> s.nodes[Advance(s.nodes, s.fg.value, i)].state != Runnable
  }

  /** The scheduler makes its choice the foreground task and runs it. */
  ghost function DispatchOf<T>(s: Sched<T>, m: nat): Sched<T>
    requires Closed(s) && s.fg.Some?
  {
    var t := Advance(s.nodes, s.fg.value, m);
    s.(fg := Some(t), nodes := SetState(s.nodes, t, Running))
  }

  // ------------------------------------------------------------------- rings

  /** c is a cycle of next links. */
  ghost predicate Cycle<T(!new)>(nodes: map<T, Node<T>>, c: seq<T>) {
    && |c| > 0
    && (forall i :: 0 <= i < |c| ==> c[i] in nodes)
    && (forall i, j :: 0 <= i < j < |c| ==> c[i] != c[j])
    && (forall i {:trigger nodes[c[i]].next} {:trigger Succ(c, i)} :: 0 <= i < |c| ==>
          nodes[c[i]].next == c[Succ(c, i)])
  }

  function Succ<T>(c: seq<T>, i: nat): nat
    requires i < |c|
  {
    if i + 1 == |c| then 0 else i + 1
  }

  /** c is a circular doubly linked ring that starts at htask. */
  ghost predicate IsRing<T(!new)>(s: Sched<T>, c: seq<T>) {
    && Cycle(s.nodes, c) && s.head == Some(c[0])
    && (forall i {:trigger Succ(c, i)} :: 0 <= i < |c| ==> s.nodes[c[Succ(c, i)]].prev == c[i])
  }

  /** task_alloc puts exactly one task into the ring, just before the old htask. */
  lemma InsertKeepsRing<T(!new)>(s: Sched<T>, c: seq<T>, t: T)
    requires IsRing(s, c) && t !in s.nodes
    ensures s.nodes[c[0]].prev in s.nodes && Holds(IsRing(Insert(s, t), [t] + c))
  {
    var n := |c|;
    assert c[Succ(c, n - 1)] == c[0];
    var s' := Insert(s, t);
    var d := [t] + c;
    forall i | 0 <= i < |d|
      ensures d[i] in s'.nodes && s'.nodes[d[i]].next == d[Succ(d, i)] && s'.nodes[d[Succ(d, i)]].prev == d[i]
    {
      if i > 0 {
        assert d[i] == c[i - 1];
        if i < n { assert Succ(c, i - 1) == i && d[i + 1] == c[i]; }
      }
    }
  }

  /** The ring without its element j. */
  function Without<T>(c: seq<T>, j: nat): seq<T>
    requires j < |c|
  {
    c[..j] + c[j + 1..]
  }

  lemma RingLinks<T(!new)>(s: Sched<T>, c: seq<T>, j: nat)
    requires IsRing(s, c) && j < |c|
    ensures s.nodes[c[j]].next in s.nodes && s.nodes[c[j]].prev in s.nodes
  {
    var i := if j == 0 then |c| - 1 else j - 1;
    assert Succ(c, i) == j;
  }

  /** task_exit of a task other than htask takes exactly that task out. */
  lemma ExitKeepsRing<T(!new)>(s: Sched<T>, c: seq<T>, j: nat)
    requires IsRing(s, c) && 0 < j < |c| && s.nodes[c[j]].tid < |s.running|
    ensures s.nodes[c[j]].next in s.nodes && s.nodes[c[j]].prev in s.nodes
    ensures Holds(IsRing(ExitOf(s, c[j]), Without(c, j)))
    ensures ExitOf(s, c[j]).fg == Some(Without(c, j)[if j + 1 == |c| then 0 else j])
  {
    RingLinks(s, c, j);
    var s', d := ExitOf(s, c[j]), Without(c, j);
    ExitMembers(s, c, j);
    forall i | 0 <= i < |d|
      ensures s'.nodes[d[i]].next == d[Succ(d, i)] && s'.nodes[d[Succ(d, i)]].prev == d[i]
    {
      ExitLink(s, c, j, i);
    }
    RingFrom(s', d);
  }

  lemma RingFrom<T(!new)>(s: Sched<T>, c: seq<T>)
    requires |c| > 0 && s.head == Some(c[0])
    requires forall i :: 0 <= i < |c| ==> c[i] in s.nodes
    requires forall i, k :: 0 <= i < k < |c| ==> c[i] != c[k]
    requires forall i {:trigger Succ(c, i)} :: 0 <= i < |c| ==>
      s.nodes[c[i]].next == c[Succ(c, i)] && s.nodes[c[Succ(c, i)]].prev == c[i]
    ensures Holds(IsRing(s, c))
  {
  }

  lemma ExitLink<T(!new)>(s: Sched<T>, c: seq<T>, j: nat, i: nat)
    requires IsRing(s, c) && 0 < j < |c| && i < |c| - 1 && s.nodes[c[j]].tid < |s.running|
    ensures s.nodes[c[j]].next in s.nodes && s.nodes[c[j]].prev in s.nodes
    ensures var s', d := ExitOf(s, c[j]), Without(c, j);
      d[i] in s'.nodes && d[Succ(d, i)] in s'.nodes
      && s'.nodes[d[i]].next == d[Succ(d, i)] && s'.nodes[d[Succ(d, i)]].prev == d[i]
  {
    RingLinks(s, c, j);
    WithoutSucc(c, j, i);
    ExitLinks(s, c, j, if i < j then i else i + 1);
  }

  lemma ExitMembers<T(!new)>(s: Sched<T>, c: seq<T>, j: nat)
    requires IsRing(s, c) && 0 < j < |c| && s.nodes[c[j]].tid < |s.running|
    ensures s.nodes[c[j]].next in s.nodes && s.nodes[c[j]].prev in s.nodes
    ensures var s', d := ExitOf(s, c[j]), Without(c, j);
      && s'.head == Some(d[0]) && s'.fg == Some(d[if j + 1 == |c| then 0 else j])
      && (forall i :: 0 <= i < |d| ==> d[i] in s'.nodes)
      && (forall i, k :: 0 <= i < k < |d| ==> d[i] != d[k])
  {
    RingLinks(s, c, j);
    assert s.nodes[c[j]].next == c[Succ(c, j)];
  }

  /** Positions in the ring without j, as positions in the ring. */
  lemma WithoutSucc<T>(c: seq<T>, j: nat, i: nat)
    requires 0 < j < |c| && i < |c| - 1
    ensures var k := if i < j then i else i + 1;
      && Without(c, j)[i] == c[k]
      && Without(c, j)[Succ(Without(c, j), i)] == c[if Succ(c, k) == j then Succ(c, j) else Succ(c, k)]
  {
  }

  lemma ExitLinks<T(!new)>(s: Sched<T>, c: seq<T>, j: nat, i: nat)
    requires IsRing(s, c) && 0 < j < |c| && i < |c| && i != j && s.nodes[c[j]].tid < |s.running|
    ensures s.nodes[c[j]].next in s.nodes && s.nodes[c[j]].prev in s.nodes
    ensures var s', n := ExitOf(s, c[j]), if Succ(c, i) == j then Succ(c, j) else Succ(c, i);
      s'.nodes[c[i]].next == c[n] && s'.nodes[c[n]].prev == c[i]
  {
    RingLinks(s, c, j);
    assert Succ(c, j - 1) == j;
    assert c[Succ(c, j)] == s.nodes[c[j]].next;
  }

  /** Exactly then: after the exit of htask itself from a ring of two or more, no
      ring starts at htask any more. */
  lemma ExitKeepsRingIff<T(!new)>(s: Sched<T>, c: seq<T>, j: nat)
    requires IsRing(s, c) && j < |c| && s.nodes[c[j]].tid < |s.running|
    ensures s.nodes[c[j]].next in s.nodes && s.nodes[c[j]].prev in s.nodes
    ensures (exists d :: IsRing(ExitOf(s, c[j]), d)) <==> j != 0 || |c| == 1
  {
    RingLinks(s, c, j);
    var s' := ExitOf(s, c[j]);
    if j != 0 {
      ExitKeepsRing(s, c, j);
    } else if |c| == 1 {
      assert IsRing(s', c);
    } else {
      assert Succ(c, 0) == 1 && Succ(c, |c| - 1) == 0;
      forall d ensures !IsRing(s', d) {
        assert d != [] && d[0] == c[0] ==> s'.nodes[d[0]].next == c[1] && s'.nodes[c[1]].prev == c[|c| - 1] != d[0];
        assert d != [] ==> d[Succ(d, 0)] in d;
      }
    }
  }
}
