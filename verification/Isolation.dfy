/** The programs of all live tasks over whole runs of the system calls: no task can
    reach the frames of another's. A task is known here by its page directory. */
module Isolation {
  import opened Wrappers
  import opened Words
  import opened Paging
  import opened Mapping
  import opened Directories
  import opened UserMaps
  import opened Loading
  import opened Forking
  import opened TaskMemory
  import opened Vm
  import opened Syscalls

  /** Memory, and for each live task that has been loaded the number of pages its
      program has from 0x08048000 on. */
  datatype World = World(s: Snap, runs: map<nat, nat>)

  ghost predicate Program(s: Snap, d: nat, n: nat) {
    && |s.mem| == NF && d in s.dirs && d < NF && 0 < n <= ROOM
    && forall k :: 0 <= k < n ==> RunPage(s, d, k)
  }

  /** All programs are there, and no two tasks have a frame in common. */
  ghost predicate Separate(w: World) {
    && Valid(w.s) && (forall d :: d in w.runs ==> Program(w.s, d, w.runs[d]))
    && forall d, e :: d in w.runs && e in w.runs && d != e ==> Disjoint(w.s, d, w.runs[d], e, w.runs[e])
  }

  ghost predicate Disjoint(s: Snap, d: nat, m: nat, e: nat, n: nat)
    requires Program(s, d, m) && Program(s, e, n)
  {
    forall j, k :: 0 <= j < m && 0 <= k < n ==> RunFrame(s, d, j) != RunFrame(s, e, k)
  }

  /** Frame f belongs to no program but d's. */
  ghost predicate NoOthers(w: World, d: nat, f: nat) {
    forall x :: x in w.runs && x != d && Program(w.s, x, w.runs[x]) ==> NotIn(w.s, x, w.runs[x], f)
  }

  ghost predicate NotIn(s: Snap, x: nat, n: nat, f: nat)
    requires Program(s, x, n)
  {
    forall k :: 0 <= k < n ==> RunFrame(s, x, k) != f
  }

  /** The system calls, with what the caller gets, and the stores of user programs. */
  datatype Event =
    | Forks(parent: nat, kstack: nat, m: nat, rc: int, child: Option<Fork.NewTask>, outcome: Ring.Outcome)
    | Adds(image: seq<Byte>, s1: Snap, s2: Snap, frames: Option<Fork.NewTask>, ok: bool, outcome: Ring.Outcome, n: nat)
    | Execs(d: nat, image: seq<Byte>, s1: Snap, va: Word, rc: int, n: nat)
    | Stores(d: nat, f: nat)
    | Exits(d: nat)

  ghost predicate Step(w: World, e: Event, w': World) {
    match e
    case Forks(p, kstack, m, rc, child, outcome) =>
      && p in w.runs && IsRun(w.s, p, m)
      && Fork.ForkDone(w.s, w'.s, p, kstack, m, rc, child, outcome)
      && w'.runs == if child.Some? then w.runs[FrameOf(child.value.pdir) := m] else w.runs
    case Adds(c, s1, s2, frames, ok, outcome, n) =>
      && AddDone(w.s, s1, s2, w'.s, c, frames, ok, outcome)
      && (ok ==> 0 < n <= ROOM && forall q :: RUN <= q < RUN + n ==> LoadsPage(c, q))
      && w'.runs == if ok then w.runs[FrameOf(frames.value.pdir) := n] else w.runs
    case Execs(d, c, s1, va, rc, n) =>
      && d in w.runs && |c| >= 52 && ExecDone(w.s, s1, w'.s, d, c, va, rc)
      && (rc == 0 ==>
            && NoOthers(w, d, Target(Walk(s1.mem, d, Page(va)).value))
            && 0 < n <= ROOM
            && forall q :: RUN <= q < RUN + n ==> q < RUN + w.runs[d] || LoadsPage(c, q))
      && w'.runs == if rc == 0 then w.runs[d := n] else w.runs
    case Stores(d, f) =>
      d in w.runs && Written(w.s, w'.s, f) && NoOthers(w, d, f) && w'.runs == w.runs
    case Exits(d) =>
      w'.s == w.s && w'.runs == w.runs - {d}
  }

  /** The event is one by which task x changes its own program, or its last. */
  predicate ByOwner(e: Event, x: nat) {
    (e.Execs? || e.Stores? || e.Exits?) && e.d == x
  }

  // ---------------------------------------------------------- one program kept

  /** The n pages of x's program lead where they did, with the same contents. */
  ghost predicate SameProgram(s: Snap, s': Snap, x: nat, n: nat) {
    && Program(s, x, n) && Program(s', x, n)
    && forall k :: 0 <= k < n ==> SamePage(s, s', x, n, k)
  }

  ghost predicate SamePage(s: Snap, s': Snap, x: nat, n: nat, k: nat)
    requires Program(s, x, n) && Program(s', x, n) && k < n
  {
    assert RunPage(s, x, k);
    var f := RunFrame(s, x, k);
    f < NF && Walk(s'.mem, x, RUN + k) == Walk(s.mem, x, RUN + k) && s'.mem[f] == s.mem[f]
  }

  lemma SameTrans(s: Snap, s1: Snap, s2: Snap, x: nat, n: nat)
    requires Holds(SameProgram(s, s1, x, n)) && Holds(SameProgram(s1, s2, x, n))
    ensures Holds(SameProgram(s, s2, x, n))
  {
    forall k | 0 <= k < n ensures SamePage(s, s2, x, n, k) {
      assert SamePage(s, s1, x, n, k) && SamePage(s1, s2, x, n, k);
    }
  }

  lemma SameRefl(s: Snap, x: nat, n: nat)
    requires Program(s, x, n)
    ensures Holds(SameProgram(s, s, x, n))
  {
    forall k | 0 <= k < n ensures SamePage(s, s, x, n, k) {
      assert RunPage(s, x, k);
    }
  }

  /** A directory that walks as before over its program, with all data kept. */
  lemma KeptProgram(s: Snap, s': Snap, x: nat, n: nat)
    requires Program(s, x, n) && |s'.mem| == NF && s.dirs <= s'.dirs && DataKept(s, s')
    requires forall q :: RUN <= q < RUN + n ==> Walk(s'.mem, x, q) == Walk(s.mem, x, q)
    ensures Holds(SameProgram(s, s', x, n))
  {
    forall k | 0 <= k < n ensures RunPage(s', x, k) {
      assert RunPage(s, x, k) && Walk(s'.mem, x, RUN + k) == Walk(s.mem, x, RUN + k);
    }
    forall k | 0 <= k < n ensures SamePage(s, s', x, n, k) {
      assert RunPage(s, x, k) && Walk(s'.mem, x, RUN + k) == Walk(s.mem, x, RUN + k);
    }
  }

  /** A store into a frame that is not the program's */
  lemma StoredProgram(s: Snap, s': Snap, f: nat, x: nat, n: nat)
    requires Holds(Valid(s)) && Written(s, s', f) && Program(s, x, n)
    requires forall k :: 0 <= k < n ==> RunFrame(s, x, k) != f
    ensures Holds(SameProgram(s, s', x, n))
  {
    WrittenKeeps(s, s', f);
    forall k | 0 <= k < n ensures RunPage(s', x, k) {
      assert RunPage(s, x, k) && Walk(s'.mem, x, RUN + k) == Walk(s.mem, x, RUN + k);
    }
    forall k | 0 <= k < n ensures SamePage(s, s', x, n, k) {
      assert RunPage(s, x, k) && Walk(s'.mem, x, RUN + k) == Walk(s.mem, x, RUN + k);
    }
  }

  /** Directories whose first pages differ have tables of their own there. */
  lemma DifferentFirstPages(s: Snap, d: nat, x: nat)
    requires |s.mem| == NF && d < NF && x < NF && Walk(s.mem, d, RUN) != Walk(s.mem, x, RUN)
    ensures Apart(s, d, x, RUN_INDEX)
  {
  }

  /** Loading an image into d spares the programs of directories that are apart. */
  lemma SparedProgram(s: Snap, s': Snap, d: nat, c: seq<Byte>, x: nat, n: nat)
    requires SinglePage(c) && Kept(s, s', d) && Spares(s, s', d, c) && x != d && Program(s, x, n)
    requires Apart(s, d, x, RUN_INDEX)
    ensures Holds(SameProgram(s, s', x, n))
  {
    assert SparedAt(s, s', d, x, RUN_INDEX);
    KeptProgram(s, s', x, n);
  }

  // -------------------------------------------------------------- the steps

  /** The pages of a's program are in frames that were free, or where they were. */
  ghost predicate OwnOrFresh(w: World, s': Snap, a: nat, n: nat)
    requires Separate(w)
  {
    && Program(s', a, n)
    && forall k :: 0 <= k < n ==> OwnOrFreshAt(w, s', a, n, k)
  }

  ghost predicate OwnOrFreshAt(w: World, s': Snap, a: nat, n: nat, k: nat)
    requires Separate(w) && Program(s', a, n) && k < n
  {
    || RunFrame(s', a, k) in w.s.free
    || (a in w.runs && k < w.runs[a] && RunFrame(s', a, k) == RunFrame(w.s, a, k))
  }

  /** All others keep their programs; a's, if it is live, is in its own or in new
      frames. */
  ghost predicate Moves(w: World, w': World, a: nat) {
    && Separate(w) && Valid(w'.s)
    && (forall x :: x in w'.runs && x != a ==>
          x in w.runs && w'.runs[x] == w.runs[x] && SameProgram(w.s, w'.s, x, w.runs[x]))
    && (a in w'.runs ==> OwnOrFresh(w, w'.s, a, w'.runs[a]))
  }

  lemma MovesSeparate(w: World, w': World, a: nat)
    requires Holds(Moves(w, w', a))
    ensures Holds(Separate(w'))
  {
    forall d | d in w'.runs ensures Program(w'.s, d, w'.runs[d]) {
      if d != a { assert SameProgram(w.s, w'.s, d, w.runs[d]); }
    }
    forall d, e | d in w'.runs && e in w'.runs && d != e ensures Disjoint(w'.s, d, w'.runs[d], e, w'.runs[e]) {
      forall j, k | 0 <= j < w'.runs[d] && 0 <= k < w'.runs[e] ensures RunFrame(w'.s, d, j) != RunFrame(w'.s, e, k) {
        MovesApart(w, w', a, d, e, j, k);
      }
    }
  }

  lemma MovesApart(w: World, w': World, a: nat, d: nat, e: nat, j: nat, k: nat)
    requires Holds(Moves(w, w', a)) && d in w'.runs && e in w'.runs && d != e
    requires Program(w'.s, d, w'.runs[d]) && Program(w'.s, e, w'.runs[e]) && j < w'.runs[d] && k < w'.runs[e]
    ensures RunFrame(w'.s, d, j) != RunFrame(w'.s, e, k)
  {
    WhereFrom(w, w', a, d, j);
    WhereFrom(w, w', a, e, k);
    if d in w.runs && e in w.runs {
      assert Disjoint(w.s, d, w.runs[d], e, w.runs[e]);
    }
  }

  /** The frame of a page after the step: only a's can be new, the others were in
      use and stay. */
  lemma WhereFrom(w: World, w': World, a: nat, x: nat, k: nat)
    requires Holds(Moves(w, w', a)) && x in w'.runs && Program(w'.s, x, w'.runs[x]) && k < w'.runs[x]
    ensures || (x == a && RunFrame(w'.s, x, k) in w.s.free)
            || (x in w.runs && k < w.runs[x] && Program(w.s, x, w.runs[x])
                && RunFrame(w'.s, x, k) == RunFrame(w.s, x, k) && RunFrame(w.s, x, k) !in w.s.free)
  {
    if x == a {
      assert OwnOrFreshAt(w, w'.s, a, w'.runs[a], k);
    } else {
      assert SamePage(w.s, w'.s, x, w.runs[x], k);
    }
    if x in w.runs && k < w.runs[x] {
      assert RunPage(w.s, x, k);
    }
  }

  lemma ForkOthers(w: World, w': World, p: nat, kstack: nat, m: nat, rc: int, child: Option<Fork.NewTask>,
                   outcome: Ring.Outcome, x: nat)
    requires Separate(w) && Sealed(Step(w, Forks(p, kstack, m, rc, child, outcome), w')) && x in w.runs
    ensures Holds(SameProgram(w.s, w'.s, x, w.runs[x]))
  {
    Unseal(Step(w, Forks(p, kstack, m, rc, child, outcome), w'));
    if child.Some? {
      assert RunPage(w.s, x, 0);
      forall q | RUN <= q < RUN + w.runs[x] ensures Walk(w'.s.mem, x, q) == Walk(w.s.mem, x, q) {
        assert q / 1024 == RUN_INDEX;
      }
    }
    KeptProgram(w.s, w'.s, x, w.runs[x]);
  }

  lemma ForkNew(w: World, w': World, p: nat, kstack: nat, m: nat, rc: int, child: Option<Fork.NewTask>,
                outcome: Ring.Outcome, c: nat)
    requires Separate(w) && Sealed(Step(w, Forks(p, kstack, m, rc, child, outcome), w'))
    requires child.Some? && c == FrameOf(child.value.pdir)
    ensures Holds(OwnOrFresh(w, w'.s, c, m))
  {
    Unseal(Step(w, Forks(p, kstack, m, rc, child, outcome), w'));
    assert RunPage(w.s, p, 0);
    ForkedPages(w.s, w'.s, p, c, m, if rc == 1 then child.value.uesp / 4096 else NPAGES);
  }

  lemma ForkedPages(s: Snap, s': Snap, p: nat, c: nat, m: nat, stack: nat)
    requires ForkedSpace(s, s', p, c, m, stack) && m > 0
    ensures Program(s', c, m) && forall k :: 0 <= k < m ==> RunFrame(s', c, k) in s.free
  {
    forall k | 0 <= k < m ensures RunPage(s', c, k) && RunFrame(s', c, k) in s.free {
      if RUN + k != stack {
        assert ChildPage(s, s', p, c, m, k);
      }
    }
  }

  lemma AddOthers(w: World, w': World, c: seq<Byte>, s1: Snap, s2: Snap, t: Fork.NewTask, ok: bool,
                  outcome: Ring.Outcome, n: nat, x: nat)
    requires Separate(w) && Sealed(Step(w, Adds(c, s1, s2, Some(t), ok, outcome, n), w')) && x in w.runs
    ensures Holds(SameProgram(w.s, w'.s, x, w.runs[x]))
  {
    Unseal(Step(w, Adds(c, s1, s2, Some(t), ok, outcome, n), w'));
    var d := FrameOf(t.pdir);
    KeptProgram(w.s, s1, x, w.runs[x]);
    AddedApart(w.s, s1, t, x, w.runs[x]);
    SparedProgram(s1, s2, d, c, x, w.runs[x]);
    SameTrans(w.s, s1, s2, x, w.runs[x]);
    if ok {
      EntryFrame(w.s, s1, s2, t, c);
      var f := Target(Walk(s2.mem, d, t.uesp / 4096).value);
      forall k | 0 <= k < w.runs[x] ensures RunFrame(s2, x, k) != f {
        assert SamePage(w.s, s2, x, w.runs[x], k) && RunPage(w.s, x, k);
      }
      StoredProgram(s2, w'.s, f, x, w.runs[x]);
      SameTrans(w.s, s2, w'.s, x, w.runs[x]);
    }
  }

  /** The new directory shares no table of the run with one that has a program. */
  lemma AddedApart(s: Snap, s1: Snap, t: Fork.NewTask, x: nat, n: nat)
    requires Fork.IsNew(s, s1, t) && Program(s, x, n)
    ensures x != FrameOf(t.pdir) && |s1.mem| == NF && Apart(s1, FrameOf(t.pdir), x, RUN_INDEX)
  {
    assert RunPage(s, x, 0) && Walk(s1.mem, x, RUN) == Walk(s.mem, x, RUN);
    assert BootWalk(RUN) == None;
    DifferentFirstPages(s1, FrameOf(t.pdir), x);
  }

  /** The entry address is stored in a frame that was free. */
  lemma EntryFrame(s: Snap, s1: Snap, s2: Snap, t: Fork.NewTask, c: seq<Byte>)
    requires Fork.IsNew(s, s1, t) && SinglePage(c) && LoadState(s1, s2, FrameOf(t.pdir), c, PhNum(c))
    ensures |s2.mem| == NF && Walk(s2.mem, FrameOf(t.pdir), t.uesp / 4096).Some?
    ensures Target(Walk(s2.mem, FrameOf(t.pdir), t.uesp / 4096).value) in s.free
  {
    LoadStateOldOrFresh(s1, s2, FrameOf(t.pdir), c, PhNum(c));
    assert Walk(s1.mem, FrameOf(t.pdir), t.uesp / 4096) == Some(StackEntry(t.uesp / 4096));
  }

  lemma AddNew(w: World, w': World, c: seq<Byte>, s1: Snap, s2: Snap, t: Fork.NewTask, outcome: Ring.Outcome, n: nat)
    requires Separate(w) && Sealed(Step(w, Adds(c, s1, s2, Some(t), true, outcome, n), w'))
    ensures Holds(OwnOrFresh(w, w'.s, FrameOf(t.pdir), n))
  {
    Unseal(Step(w, Adds(c, s1, s2, Some(t), true, outcome, n), w'));
    AddedPages(w.s, s1, s2, w'.s, c, t, n);
  }

  lemma AddedPages(s: Snap, s1: Snap, s2: Snap, s3: Snap, c: seq<Byte>, t: Fork.NewTask, n: nat)
    requires SinglePage(c) && LoadState(s1, s2, FrameOf(t.pdir), c, PhNum(c)) && EntryStored(s2, s3, t, EntryOf(c))
    requires 0 < n <= ROOM && s1.free <= s.free
    requires forall q :: RUN <= q < RUN + n ==> LoadsPage(c, q)
    ensures Program(s3, FrameOf(t.pdir), n)
    ensures forall k :: 0 <= k < n ==> RunFrame(s3, FrameOf(t.pdir), k) in s.free
  {
    StoredKeeps(s2, s3, t, EntryOf(c));
    forall k | 0 <= k < n
      ensures RunPage(s3, FrameOf(t.pdir), k) && RunFrame(s3, FrameOf(t.pdir), k) in s.free
    {
      AddNewPage(s1, s2, s3, FrameOf(t.pdir), c, n, k);
    }
  }

  lemma AddNewPage(s1: Snap, s2: Snap, s3: Snap, d: nat, c: seq<Byte>, n: nat, k: nat)
    requires SinglePage(c) && LoadState(s1, s2, d, c, PhNum(c)) && k < n <= ROOM && LoadsPage(c, RUN + k)
    requires |s3.mem| == NF && Walk(s3.mem, d, RUN + k) == Walk(s2.mem, d, RUN + k)
    requires forall g: nat :: IsData(s2, g) ==> IsData(s3, g)
    ensures RunPage(s3, d, k) && RunFrame(s3, d, k) in s1.free
  {
    assert !Untouched(c, PhNum(c), RUN + k);
    assert FreshAt(s1, s2, d, RUN + k);
  }

  lemma ExecOthers(w: World, w': World, d: nat, c: seq<Byte>, s1: Snap, va: Word, rc: int, n: nat, x: nat)
    requires Separate(w) && Sealed(Step(w, Execs(d, c, s1, va, rc, n), w')) && rc != 1 && x in w.runs && x != d
    ensures Holds(SameProgram(w.s, w'.s, x, w.runs[x]))
  {
    Unseal(Step(w, Execs(d, c, s1, va, rc, n), w'));
    assert Disjoint(w.s, d, w.runs[d], x, w.runs[x]) && RunFrame(w.s, d, 0) != RunFrame(w.s, x, 0);
    DifferentFirstPages(w.s, d, x);
    SparedProgram(w.s, s1, d, c, x, w.runs[x]);
    if rc == 0 {
      var f := Target(Walk(s1.mem, d, Page(va)).value);
      forall k | 0 <= k < w.runs[x] ensures RunFrame(s1, x, k) != f {
        assert SamePage(w.s, s1, x, w.runs[x], k) && RunPage(w.s, x, k);
      }
      StoredProgram(s1, w'.s, f, x, w.runs[x]);
      SameTrans(w.s, s1, w'.s, x, w.runs[x]);
    }
  }

  /** After a load, complete or not, the program's pages are old or fresh. */
  lemma ExecOwn(w: World, d: nat, c: seq<Byte>, s1: Snap, n: nat)
    requires Separate(w) && d in w.runs && SinglePage(c) && 0 < n <= ROOM
    requires Holds(LoadState(w.s, s1, d, c, PhNum(c))) || (Holds(LoadFailed(w.s, s1, d, c)) && n <= w.runs[d])
    requires forall q :: RUN <= q < RUN + n ==> q < RUN + w.runs[d] || LoadsPage(c, q)
    ensures Holds(OwnOrFresh(w, s1, d, n))
  {
    if Holds(LoadState(w.s, s1, d, c, PhNum(c))) {
      LoadStateOldOrFresh(w.s, s1, d, c, PhNum(c));
    }
    forall k | 0 <= k < n
      ensures RunPage(s1, d, k) && (RunFrame(s1, d, k) in w.s.free
              || (k < w.runs[d] && RunFrame(s1, d, k) == RunFrame(w.s, d, k)))
    {
      ExecOwnPage(w, d, c, s1, n, k);
    }
  }

  lemma ExecOwnPage(w: World, d: nat, c: seq<Byte>, s1: Snap, n: nat, k: nat)
    requires Separate(w) && d in w.runs && SinglePage(c) && k < n <= ROOM
    requires Holds(LoadState(w.s, s1, d, c, PhNum(c))) || (Holds(LoadFailed(w.s, s1, d, c)) && n <= w.runs[d])
    requires k < w.runs[d] || LoadsPage(c, RUN + k)
    requires |w.s.mem| == NF && |s1.mem| == NF && d < NF && OldOrFresh(w.s, s1, d)
    ensures RunPage(s1, d, k)
    ensures RunFrame(s1, d, k) in w.s.free || (k < w.runs[d] && RunFrame(s1, d, k) == RunFrame(w.s, d, k))
  {
    if k < w.runs[d] {
      assert RunPage(w.s, d, k);
      assert Walk(s1.mem, d, RUN + k) == Walk(w.s.mem, d, RUN + k) || FreshAt(w.s, s1, d, RUN + k);
    } else {
      assert !Untouched(c, PhNum(c), RUN + k);
      assert FreshAt(w.s, s1, d, RUN + k);
    }
  }

  lemma OwnRefl(w: World, d: nat)
    requires Separate(w) && d in w.runs
    ensures Holds(OwnOrFresh(w, w.s, d, w.runs[d]))
  {
    forall k | 0 <= k < w.runs[d] ensures OwnOrFreshAt(w, w.s, d, w.runs[d], k) {
    }
  }

  /** A store by the task itself moves none of its pages. */
  lemma OwnStored(w: World, s1: Snap, s': Snap, d: nat, n: nat, f: nat)
    requires Separate(w) && Holds(OwnOrFresh(w, s1, d, n)) && Holds(Valid(s1)) && Written(s1, s', f)
    ensures Holds(OwnOrFresh(w, s', d, n)) && Holds(Valid(s'))
  {
    WrittenKeeps(s1, s', f);
    forall k | 0 <= k < n ensures RunPage(s', d, k) && RunFrame(s', d, k) == RunFrame(s1, d, k) {
      assert RunPage(s1, d, k) && Walk(s'.mem, d, RUN + k) == Walk(s1.mem, d, RUN + k);
    }
    forall k | 0 <= k < n ensures OwnOrFreshAt(w, s', d, n, k) {
      assert OwnOrFreshAt(w, s1, d, n, k);
    }
  }

  lemma ForkValid(w: World, w': World, p: nat, kstack: nat, m: nat, rc: int, child: Option<Fork.NewTask>,
                  outcome: Ring.Outcome)
    requires Separate(w) && Sealed(Step(w, Forks(p, kstack, m, rc, child, outcome), w'))
    ensures Holds(Valid(w'.s))
    ensures w'.runs == if child.Some? then w.runs[FrameOf(child.value.pdir) := m] else w.runs
  {
    Unseal(Step(w, Forks(p, kstack, m, rc, child, outcome), w'));
  }

  lemma ForkMoves(w: World, w': World, p: nat, kstack: nat, m: nat, rc: int, child: Option<Fork.NewTask>,
                  outcome: Ring.Outcome)
    requires Separate(w) && Sealed(Step(w, Forks(p, kstack, m, rc, child, outcome), w'))
    ensures Holds(Moves(w, w', if child.Some? then FrameOf(child.value.pdir) else NF))
  {
    ForkValid(w, w', p, kstack, m, rc, child, outcome);
    forall x | x in w.runs ensures SameProgram(w.s, w'.s, x, w.runs[x]) {
      ForkOthers(w, w', p, kstack, m, rc, child, outcome, x);
    }
    if child.Some? {
      ForkNew(w, w', p, kstack, m, rc, child, outcome, FrameOf(child.value.pdir));
    }
  }

  lemma AddSame(w: World, w': World, c: seq<Byte>, s1: Snap, s2: Snap, frames: Option<Fork.NewTask>, ok: bool,
                outcome: Ring.Outcome, n: nat, x: nat)
    requires Separate(w) && Sealed(Step(w, Adds(c, s1, s2, frames, ok, outcome, n), w')) && x in w.runs
    ensures Holds(SameProgram(w.s, w'.s, x, w.runs[x]))
  {
    match frames
    case Some(t) => AddOthers(w, w', c, s1, s2, t, ok, outcome, n, x);
    case None =>
      Unseal(Step(w, Adds(c, s1, s2, frames, ok, outcome, n), w'));
      KeptProgram(w.s, w'.s, x, w.runs[x]);
  }

  lemma AddValid(w: World, w': World, c: seq<Byte>, s1: Snap, s2: Snap, frames: Option<Fork.NewTask>, ok: bool,
                 outcome: Ring.Outcome, n: nat)
    requires Separate(w) && Sealed(Step(w, Adds(c, s1, s2, frames, ok, outcome, n), w'))
    ensures Holds(Valid(w'.s)) && (ok ==> frames.Some?)
    ensures w'.runs == if ok then w.runs[FrameOf(frames.value.pdir) := n] else w.runs
  {
    Unseal(Step(w, Adds(c, s1, s2, frames, ok, outcome, n), w'));
    if frames.Some? && ok {
      StoredKeeps(s2, w'.s, frames.value, EntryOf(c));
    }
  }

  lemma AddMoves(w: World, w': World, c: seq<Byte>, s1: Snap, s2: Snap, frames: Option<Fork.NewTask>, ok: bool,
                 outcome: Ring.Outcome, n: nat)
    requires Separate(w) && Sealed(Step(w, Adds(c, s1, s2, frames, ok, outcome, n), w'))
    ensures Holds(Moves(w, w', if ok && frames.Some? then FrameOf(frames.value.pdir) else NF))
  {
    AddValid(w, w', c, s1, s2, frames, ok, outcome, n);
    forall x | x in w.runs ensures SameProgram(w.s, w'.s, x, w.runs[x]) {
      AddSame(w, w', c, s1, s2, frames, ok, outcome, n, x);
    }
    if ok {
      AddNew(w, w', c, s1, s2, frames.value, outcome, n);
    }
  }

  lemma ExecMoves(w: World, w': World, d: nat, c: seq<Byte>, s1: Snap, va: Word, rc: int, n: nat)
    requires Separate(w) && Sealed(Step(w, Execs(d, c, s1, va, rc, n), w')) && rc != 1
    ensures Holds(Moves(w, w', d))
  {
    forall x | x in w.runs && x != d ensures SameProgram(w.s, w'.s, x, w.runs[x]) {
      ExecOthers(w, w', d, c, s1, va, rc, n, x);
    }
    ExecKeepsOwn(w, w', d, c, s1, va, rc, n);
  }

  lemma ExecKeepsOwn(w: World, w': World, d: nat, c: seq<Byte>, s1: Snap, va: Word, rc: int, n: nat)
    requires Separate(w) && Sealed(Step(w, Execs(d, c, s1, va, rc, n), w')) && rc != 1
    ensures d in w.runs && w'.runs == if rc == 0 then w.runs[d := n] else w.runs
    ensures Holds(OwnOrFresh(w, w'.s, d, w'.runs[d])) && Holds(Valid(w'.s))
  {
    Unseal(Step(w, Execs(d, c, s1, va, rc, n), w'));
    if rc == 0 {
      ExecOwn(w, d, c, s1, n);
      OwnStored(w, s1, w'.s, d, n, Target(Walk(s1.mem, d, Page(va)).value));
    } else {
      ExecOwn(w, d, c, s1, w.runs[d]);
    }
  }

  lemma StoreMoves(w: World, w': World, d: nat, f: nat)
    requires Separate(w) && Step(w, Stores(d, f), w')
    ensures Holds(Moves(w, w', d))
  {
    forall x | x in w.runs && x != d ensures SameProgram(w.s, w'.s, x, w.runs[x]) {
      assert NotIn(w.s, x, w.runs[x], f);
      StoredProgram(w.s, w'.s, f, x, w.runs[x]);
    }
    OwnRefl(w, d);
    OwnStored(w, w.s, w'.s, d, w.runs[d], f);
  }

  lemma StillMoves(w: World, w': World)
    requires Separate(w) && w'.s == w.s && w'.runs.Keys <= w.runs.Keys
    requires forall x :: x in w'.runs ==> w'.runs[x] == w.runs[x]
    ensures Holds(Moves(w, w', NF))
  {
    forall x | x in w'.runs ensures SameProgram(w.s, w'.s, x, w.runs[x]) {
      SameRefl(w.s, x, w.runs[x]);
    }
  }

  /** Whom a step concerns */
  function Actor(e: Event): nat {
    match e
    case Forks(p, kstack, m, rc, child, outcome) => if child.Some? then FrameOf(child.value.pdir) else NF
    case Adds(c, s1, s2, frames, ok, outcome, n) => if ok && frames.Some? then FrameOf(frames.value.pdir) else NF
    case Execs(d, c, s1, va, rc, n) => if rc == 1 then NF else d
    case Stores(d, f) => d
    case Exits(d) => NF
  }

  lemma StepMoves(w: World, e: Event, w': World)
    requires Separate(w) && Step(w, e, w')
    ensures Holds(Moves(w, w', Actor(e)))
  {
    match e
    case Forks(p, kstack, m, rc, child, outcome) => ForkMoves(w, w', p, kstack, m, rc, child, outcome);
    case Adds(c, s1, s2, frames, ok, outcome, n) => AddMoves(w, w', c, s1, s2, frames, ok, outcome, n);
    case Execs(d, c, s1, va, rc, n) =>
      if rc == 1 {
        StillMoves(w, w');
      } else {
        ExecMoves(w, w', d, c, s1, va, rc, n);
      }
    case Stores(d, f) => StoreMoves(w, w', d, f);
    case Exits(d) => StillMoves(w, w');
  }

  /** A step that is not x's own leaves x's program alone. */
  lemma StepSame(w: World, e: Event, w': World, x: nat)
    requires Separate(w) && Step(w, e, w') && x in w.runs && !ByOwner(e, x)
    ensures x in w'.runs && w'.runs[x] == w.runs[x] && Holds(SameProgram(w.s, w'.s, x, w.runs[x]))
  {
    StepMoves(w, e, w');
    assert Program(w.s, x, w.runs[x]);
    assert x != Actor(e) && x in w'.runs;
  }

  // -------------------------------------------------------------- whole runs

  /** States and events from a state in which all programs are separate, for example
      one without tasks. */
  ghost predicate Run(ws: seq<World>, es: seq<Event>) {
    && |ws| == |es| + 1 && Separate(ws[0])
    && forall i :: 0 <= i < |es| ==> Step(ws[i], es[i], ws[i + 1])
  }

  /** In every state of every run, no two live tasks have a frame of their programs
      in common. */
  lemma {:induction false} AlwaysSeparate(ws: seq<World>, es: seq<Event>, i: nat)
    requires Run(ws, es) && i <= |es|
    ensures Separate(ws[i])
  {
    if i > 0 {
      AlwaysSeparate(ws, es, i - 1);
      StepMoves(ws[i - 1], es[i - 1], ws[i]);
      MovesSeparate(ws[i - 1], ws[i], Actor(es[i - 1]));
    }
  }

  /** And however many events pass, a task's program changes only by its own: the
      forks, loads and stores of all others leave every byte of it. */
  lemma {:induction false} OnlyByOwner(ws: seq<World>, es: seq<Event>, i: nat, j: nat, x: nat)
    requires Run(ws, es) && i <= j <= |es| && x in ws[i].runs
    requires forall m :: i <= m < j ==> !ByOwner(es[m], x)
    ensures x in ws[j].runs && ws[j].runs[x] == ws[i].runs[x]
    ensures Holds(SameProgram(ws[i].s, ws[j].s, x, ws[i].runs[x]))
  {
    AlwaysSeparate(ws, es, i);
    if i == j {
      SameRefl(ws[i].s, x, ws[i].runs[x]);
    } else {
      OnlyByOwner(ws, es, i, j - 1, x);
      AlwaysSeparate(ws, es, j - 1);
      StepSame(ws[j - 1], es[j - 1], ws[j], x);
      SameTrans(ws[i].s, ws[j - 1].s, ws[j].s, x, ws[i].runs[x]);
    }
  }

  /** In bytes: what x reads at an address of its program is what it read before. */
  lemma ReadsTheSame(ws: seq<World>, es: seq<Event>, i: nat, j: nat, x: nat, va: Word)
    requires Run(ws, es) && i <= j <= |es| && x in ws[i].runs
    requires forall m :: i <= m < j ==> !ByOwner(es[m], x)
    requires RUN <= Page(va) < RUN + ws[i].runs[x]
    ensures |ws[i].s.mem| == NF && |ws[j].s.mem| == NF && x < NF
    ensures ReadVirtual(ws[i].s.mem, x, va).Some?
    ensures ReadVirtual(ws[j].s.mem, x, va) == ReadVirtual(ws[i].s.mem, x, va)
  {
    OnlyByOwner(ws, es, i, j, x);
    var k := Page(va) - RUN;
    assert SamePage(ws[i].s, ws[j].s, x, ws[i].runs[x], k) && RunPage(ws[i].s, x, k);
  }
}
