/** The loop of task_copy_vm for any run and any number of free frames. It checks
    neither what pm_alloc_frame answers nor where the run ends; this is what it
    does then, and when it isolates the child all the same. */
module CopyLoop {
  import opened Wrappers
  import opened Words
  import opened Pm
  import opened Paging
  import opened Forking

  /** The frame the next pm_alloc_frame gives, 0 when there is none */
  ghost function NextFrame(free: set<nat>): (f: nat)
    ensures if free == {} then f == 0 else f in free
  {
    if free == {} then 0 else Least(free)
  }

  ghost predicate Usable(s: Snap, c: nat) {
    |s.mem| == NF && (forall f :: f in s.free ==> 0 < f < NF) && 0 < c < NF && c !in s.free
  }

  /** ptbl_cpy = pm_alloc_frame(); memcpy(ptbl_cpy, tentry_addr, 4096) */
  ghost function FrameStep(s: Snap, c: nat, tentry: Word): (s': Snap)
    requires Usable(s, c) && Target(tentry) < NF
    ensures Usable(s', c) && s'.mem[c] == s.mem[c]
  {
    var f := NextFrame(s.free);
    s.(mem := s.mem[f := s.mem[Target(tentry)]], free := s.free - {f})
  }

  /** On the first pass a table is allocated and entered in the directory. */
  ghost function TableStep(s: Snap, c: nat, first: bool, entry: Word): (s': Snap)
    requires Usable(s, c)
    ensures Usable(s', c)
  {
    if !first then s
    else
      var t := NextFrame(s.free);
      s.(mem := s.mem[c := s.mem[c][RUN_INDEX := Retarget(t, entry)]], free := s.free - {t},
         slot := if t == 0 then s.slot else s.slot[t := RUN_INDEX])
  }

  /** The entry for page q is written in the table that c's directory leads to. */
  ghost function EntryStep(s: Snap, c: nat, q: nat, e: Word): (s': Snap)
    requires Usable(s, c) && q < NPAGES && Target(s.mem[c][q / 1024]) < NF
    ensures Usable(s', c)
  {
    var t := Target(s.mem[c][q / 1024]);
    s.(mem := s.mem[t := s.mem[t][q % 1024 := e]])
  }

  ghost predicate Passable(s: Snap, c: nat, k: nat, tentry: Word) {
    && Usable(s, c) && RUN + k < NPAGES && Target(tentry) < NF
    && (k > 0 ==> Target(s.mem[c][(RUN + k) / 1024]) < NF)
  }

  /** One pass of the loop, for page k */
  ghost function Pass(s: Snap, c: nat, k: nat, entry: Word, tentry: Word): (s': Snap)
    requires Passable(s, c, k, tentry)
    ensures Usable(s', c)
  {
    var a := FrameStep(s, c, tentry);
    var b := TableStep(a, c, k == 0, entry);
    EntryStep(b, c, RUN + k, Retarget(NextFrame(s.free), tentry))
  }

  /** The memory before the loop: c is a copy of p's directory. */
  ghost predicate MayCopy(s0: Snap, p: nat, c: nat, n: nat) {
    Inv(s0) && p in s0.dirs && c in s0.dirs && p != c && s0.mem[c] == s0.mem[p] && IsRun(s0, p, n)
  }

  /** A frame that was free, or 0 */
  ghost predicate NewFrame(s0: Snap, f: nat) {
    f == 0 || f in s0.free
  }

  /** What every pass keeps: the parent's directory, the child's outside the run's
      entry, and the tables that were there, but for the entries of pages from ROOM
      on, where parent and child have the same tables. */
  ghost predicate LoopOk(s0: Snap, s: Snap, p: nat, c: nat, k: nat)
    requires |s0.mem| == NF && p < NF && c < NF
  {
    && Usable(s, c) && s.free <= s0.free && s.dirs == s0.dirs && s.kc == s0.kc && s.ioc == s0.ioc
    && s.mem[p] == s0.mem[p]
    && (forall i :: 0 <= i < 1024 && i != RUN_INDEX ==> s.mem[c][i] == s0.mem[c][i])
    && (if k == 0 then s == s0 else NewFrame(s0, Target(s.mem[c][RUN_INDEX])))
    && TablesOk(s0, s, k)
    && (k > ROOM ==> Redirected(s0, s, p))
  }

  ghost predicate TablesOk(s0: Snap, s: Snap, k: nat)
    requires |s0.mem| == NF && |s.mem| == NF
  {
    forall t, j :: t in s0.slot && t < NF && 0 <= j < 1024 && !(RUN + ROOM <= s0.slot[t] * 1024 + j < RUN + k) ==>
      s.mem[t][j] == s0.mem[t][j]
  }

  /** The parent's first page past ROOM leads to a new frame. */
  ghost predicate Redirected(s0: Snap, s: Snap, p: nat)
    requires |s0.mem| == NF && |s.mem| == NF && p < NF
  {
    var t := Target(s0.mem[p][RUN_INDEX + 1]);
    t < NF && NewFrame(s0, Target(s.mem[t][0]))
  }

  /** So the loop reads the parent's entries as they were at the start. */
  lemma ReadsAsBefore(s0: Snap, s: Snap, p: nat, c: nat, n: nat, k: nat)
    requires MayCopy(s0, p, c, n) && k <= n && LoopOk(s0, s, p, c, k)
    ensures Walk(s.mem, p, RUN + k) == Walk(s0.mem, p, RUN + k)
  {
    assert EntryOk(s0, s0.mem[p][(RUN + k) / 1024], (RUN + k) / 1024);
  }

  /** The parent's entries for page k */
  ghost function DirEntry(s0: Snap, p: nat, k: nat): Word
    requires |s0.mem| == NF && p < NF && RUN + k < NPAGES
  {
    s0.mem[p][(RUN + k) / 1024]
  }

  ghost predicate RunEntries(s0: Snap, p: nat, n: nat, k: nat, entry: Word, tentry: Word) {
    && IsRun(s0, p, n) && k < n
    && entry == DirEntry(s0, p, k) && tentry == RunEntry(s0, p, n, k)
  }

  lemma EntriesThere(s0: Snap, p: nat, c: nat, n: nat, k: nat)
    requires MayCopy(s0, p, c, n) && k < n
    ensures Present(DirEntry(s0, p, k)) && Target(DirEntry(s0, p, k)) in s0.slot
    ensures s0.slot[Target(DirEntry(s0, p, k))] == (RUN + k) / 1024
    ensures s0.mem[Target(DirEntry(s0, p, k))][(RUN + k) % 1024] == RunEntry(s0, p, n, k)
  {
    assert RunPage(s0, p, k);
    assert EntryOk(s0, s0.mem[p][(RUN + k) / 1024], (RUN + k) / 1024);
  }

  lemma PassPossible(s0: Snap, s: Snap, p: nat, c: nat, n: nat, k: nat)
    requires MayCopy(s0, p, c, n) && k < n && LoopOk(s0, s, p, c, k)
    ensures Passable(s, c, k, RunEntry(s0, p, n, k))
  {
    EntriesThere(s0, p, c, n, k);
  }

  lemma FirstPassOk(s0: Snap, p: nat, c: nat, n: nat)
    requires MayCopy(s0, p, c, n) && 0 < n && Passable(s0, c, 0, RunEntry(s0, p, n, 0))
    ensures LoopOk(s0, Pass(s0, c, 0, DirEntry(s0, p, 0), RunEntry(s0, p, n, 0)), p, c, 1)
  {
  }

  /** A later pass inside the run's directory entry: the new table is written. */
  lemma RunPassOk(s0: Snap, s: Snap, p: nat, c: nat, n: nat, k: nat)
    requires MayCopy(s0, p, c, n) && 0 < k < n && k < ROOM && LoopOk(s0, s, p, c, k)
    requires Passable(s, c, k, RunEntry(s0, p, n, k))
    ensures LoopOk(s0, Pass(s, c, k, DirEntry(s0, p, k), RunEntry(s0, p, n, k)), p, c, k + 1)
  {
    assert (RUN + k) / 1024 == RUN_INDEX;
  }

  /** A pass behind it: the table written is the parent's. */
  lemma BeyondPassOk(s0: Snap, s: Snap, p: nat, c: nat, n: nat, k: nat)
    requires MayCopy(s0, p, c, n) && ROOM <= k < n && LoopOk(s0, s, p, c, k)
    requires Passable(s, c, k, RunEntry(s0, p, n, k))
    ensures LoopOk(s0, Pass(s, c, k, DirEntry(s0, p, k), RunEntry(s0, p, n, k)), p, c, k + 1)
  {
    EntriesThere(s0, p, c, n, k);
    EntriesThere(s0, p, c, n, ROOM);
    var i, j := (RUN + k) / 1024, (RUN + k) % 1024;
    assert i > RUN_INDEX && (j == 0 && i == RUN_INDEX + 1 <==> k == ROOM);
  }

  lemma PassOk(s0: Snap, s: Snap, p: nat, c: nat, n: nat, k: nat)
    requires MayCopy(s0, p, c, n) && k < n && Sealed(LoopOk(s0, s, p, c, k))
    ensures Passable(s, c, k, RunEntry(s0, p, n, k))
    ensures Sealed(LoopOk(s0, Pass(s, c, k, DirEntry(s0, p, k), RunEntry(s0, p, n, k)), p, c, k + 1))
  {
    Unseal(LoopOk(s0, s, p, c, k));
    PassPossible(s0, s, p, c, n, k);
    if k == 0 {
      FirstPassOk(s0, p, c, n);
    } else if k < ROOM {
      RunPassOk(s0, s, p, c, n, k);
    } else {
      BeyondPassOk(s0, s, p, c, n, k);
    }
  }

  /** The memory after k passes */
  ghost function CopyOf(s0: Snap, p: nat, c: nat, n: nat, k: nat): (s: Snap)
    requires MayCopy(s0, p, c, n) && k <= n
    ensures Sealed(LoopOk(s0, s, p, c, k))
  {
    if k == 0 then s0
    else
      var s := CopyOf(s0, p, c, n, k - 1);
      PassOk(s0, s, p, c, n, k - 1);
      Pass(s, c, k - 1, DirEntry(s0, p, k - 1), RunEntry(s0, p, n, k - 1))
  }

  /** The loop has come to memory s after k passes. */
  ghost predicate Reached(s0: Snap, s: Snap, p: nat, c: nat, n: nat, k: nat) {
    forall i {:trigger LookAt(i, k)} :: LookAt(i, k) ==>
      MayCopy(s0, p, c, n) && k <= n && s == CopyOf(s0, p, c, n, k)
  }

  lemma CopyBegins(s0: Snap, p: nat, c: nat, n: nat)
    requires MayCopy(s0, p, c, n)
    ensures Reached(s0, s0, p, c, n, 0)
  {
  }

  lemma ReachedIs(s0: Snap, s: Snap, p: nat, c: nat, n: nat, k: nat)
    requires Reached(s0, s, p, c, n, k)
    ensures MayCopy(s0, p, c, n) && k <= n && s == CopyOf(s0, p, c, n, k)
  {
    assert LookAt(0, k);
  }

  // --------------------------------------------------- with enough frames

  /** Each pass then is one step of the copy. */
  lemma PassIsStep(s0: Snap, s: Snap, p: nat, c: nat, n: nat, k: nat, told: nat, fold: seq<nat>)
    returns (t: nat, f: nat)
    requires MayCopy(s0, p, c, n) && k < n <= ROOM && Holds(Copied(s0, s, p, c, n, k, told, fold))
    requires |s.free| >= (if k == 0 then 2 else 1) && Passable(s, c, k, RunEntry(s0, p, n, k))
    ensures f < NF && t < NF && (k > 0 ==> t == told)
    ensures Holds(CopyStep(s, Pass(s, c, k, DirEntry(s0, p, k), RunEntry(s0, p, n, k)), c, k, t, f,
                           Retarget(t, DirEntry(s0, p, k)), s.mem[Target(RunEntry(s0, p, n, k))],
                           Retarget(f, RunEntry(s0, p, n, k))))
  {
    CopiedReads(s0, s, p, c, n, k, told, fold);
    assert (RUN + k) / 1024 == RUN_INDEX && (RUN + k) % 1024 == RUN_SLOT + k;
    f := NextFrame(s.free);
    if k == 0 {
      assert s.free == s.free - {f} + {f};
      t := NextFrame(s.free - {f});
    } else {
      t := told;
    }
  }

  lemma CopiedPass(s0: Snap, s: Snap, p: nat, c: nat, n: nat, k: nat, told: nat, fold: seq<nat>)
    returns (t: nat, fs: seq<nat>)
    requires MayCopy(s0, p, c, n) && k < n <= ROOM && |s0.free| >= k + 2
    requires Sealed(LoopOk(s0, s, p, c, k)) && Sealed(Copied(s0, s, p, c, n, k, told, fold))
    ensures Passable(s, c, k, RunEntry(s0, p, n, k))
    ensures Sealed(Copied(s0, Pass(s, c, k, DirEntry(s0, p, k), RunEntry(s0, p, n, k)), p, c, n, k + 1, t, fs))
  {
    Unseal(Copied(s0, s, p, c, n, k, told, fold));
    PassOk(s0, s, p, c, n, k);
    CopiedReads(s0, s, p, c, n, k, told, fold);
    var f, e, te := 0, DirEntry(s0, p, k), RunEntry(s0, p, n, k);
    t, f := PassIsStep(s0, s, p, c, n, k, told, fold);
    fs := fold + [f];
    CopyNext(s0, s, Pass(s, c, k, e, te), p, c, n, k, t, fold, f,
             Retarget(t, e), s.mem[Target(te)], Retarget(f, te));
  }

  lemma {:induction false} CopiedWhile(s0: Snap, p: nat, c: nat, n: nat, k: nat) returns (t: nat, fs: seq<nat>)
    requires MayCopy(s0, p, c, n) && k <= n <= ROOM && (k > 0 ==> |s0.free| >= k + 1)
    ensures Sealed(Copied(s0, CopyOf(s0, p, c, n, k), p, c, n, k, t, fs))
  {
    if k == 0 {
      CopiedStart(s0, p, c, n);
      t, fs := 0, [];
    } else {
      t, fs := CopiedWhile(s0, p, c, n, k - 1);
      t, fs := CopiedPass(s0, CopyOf(s0, p, c, n, k - 1), p, c, n, k - 1, t, fs);
    }
  }

  // ------------------------------------------------------ with too few frames

  lemma PassFree(s: Snap, c: nat, k: nat, entry: Word, tentry: Word)
    requires Passable(s, c, k, tentry)
    ensures var took, s' := if k == 0 then 2 else 1, Pass(s, c, k, entry, tentry);
      |s'.free| == if |s.free| < took then 0 else |s.free| - took
  {
    var f := NextFrame(s.free);
    var rest := s.free - {f};
    assert s.free != {} ==> s.free == rest + {f};
    var t := NextFrame(rest);
    assert rest != {} ==> rest == (rest - {t}) + {t};
    assert s.free == {} ==> rest == {};
    assert rest == {} ==> rest - {t} == {};
  }

  lemma {:induction false} FreeLeft(s0: Snap, p: nat, c: nat, n: nat, k: nat)
    requires MayCopy(s0, p, c, n) && 0 < k <= n
    ensures |CopyOf(s0, p, c, n, k).free| == if |s0.free| < k + 1 then 0 else |s0.free| - (k + 1)
  {
    if k == 1 {
      LastPassFree(s0, s0, p, c, n, 0);
    } else {
      FreeLeft(s0, p, c, n, k - 1);
      LastPassFree(s0, CopyOf(s0, p, c, n, k - 1), p, c, n, k - 1);
    }
  }

  lemma LastPassFree(s0: Snap, s: Snap, p: nat, c: nat, n: nat, k: nat)
    requires MayCopy(s0, p, c, n) && k < n && Sealed(LoopOk(s0, s, p, c, k))
    ensures Passable(s, c, k, RunEntry(s0, p, n, k))
    ensures var took, s' := if k == 0 then 2 else 1, Pass(s, c, k, DirEntry(s0, p, k), RunEntry(s0, p, n, k));
      |s'.free| == if |s.free| < took then 0 else |s.free| - took
  {
    PassOk(s0, s, p, c, n, k);
    PassFree(s, c, k, DirEntry(s0, p, k), RunEntry(s0, p, n, k));
  }

  /** After its pass, page k of the child leads to the frame the pass took, if the
      child has a table there. */
  lemma PassMaps(s: Snap, c: nat, k: nat, entry: Word, tentry: Word)
    requires Passable(s, c, k, tentry) && (k == 0 || Target(s.mem[c][(RUN + k) / 1024]) != c)
    ensures var s' := Pass(s, c, k, entry, tentry);
      RunFrame(s', c, k) == NextFrame(s.free) || RunFrame(s', c, k) == NF
  {
  }

  lemma NotFresh(s0: Snap, s': Snap, p: nat, c: nat, n: nat, k: nat)
    requires IsRun(s0, p, n) && k < n && |s'.mem| == NF && c < NF && RunFrame(s', c, k) !in s0.free
    ensures !Holds(Isolated(s0, s', p, c, n, NPAGES))
  {
    assert !ChildPage(s0, s', p, c, n, k);
  }

  lemma NotAsBefore(s0: Snap, s': Snap, p: nat, c: nat, n: nat, k: nat)
    requires IsRun(s0, p, n) && k < n && |s'.mem| == NF
    requires Walk(s'.mem, p, RUN + k) != Walk(s0.mem, p, RUN + k)
    ensures !Holds(Isolated(s0, s', p, c, n, NPAGES))
  {
    assert RunPage(s0, p, k) && !ParentPage(s0, s', p, n, k);
  }

  lemma StarvedPass(s0: Snap, s: Snap, p: nat, c: nat, n: nat)
    requires MayCopy(s0, p, c, n) && 0 < n <= ROOM && Sealed(LoopOk(s0, s, p, c, n - 1))
    requires Passable(s, c, n - 1, RunEntry(s0, p, n, n - 1))
    requires s.free == {} || (n == 1 && |s.free| == 1)
    ensures var s' := Pass(s, c, n - 1, DirEntry(s0, p, n - 1), RunEntry(s0, p, n, n - 1));
      !(Holds(Isolated(s0, s', p, c, n, NPAGES)) && Inv(s'))
  {
    Unseal(LoopOk(s0, s, p, c, n - 1));
    var e, te := DirEntry(s0, p, n - 1), RunEntry(s0, p, n, n - 1);
    var s' := Pass(s, c, n - 1, e, te);
    if s.free == {} {
      PassMaps(s, c, n - 1, e, te);
      NotFresh(s0, s', p, c, n, n - 1);
    } else {
      EntriesThere(s0, p, c, n, 0);
      OneLeft(s.free);
      assert !EntryOk(s', s'.mem[c][RUN_INDEX], RUN_INDEX) || 0 in s'.slot;
    }
  }

  lemma OneLeft(free: set<nat>)
    requires |free| == 1
    ensures free - {NextFrame(free)} == {}
  {
    var f := NextFrame(free);
    assert free == free - {f} + {f};
  }

  /** Too few frames: the last page is in frame 0, or the table is. */
  lemma Starved(s0: Snap, p: nat, c: nat, n: nat)
    requires MayCopy(s0, p, c, n) && 0 < n <= ROOM && |s0.free| < n + 1
    ensures !(Holds(Isolated(s0, CopyOf(s0, p, c, n, n), p, c, n, NPAGES)) && Inv(CopyOf(s0, p, c, n, n)))
  {
    var s := CopyOf(s0, p, c, n, n - 1);
    LastFree(s0, p, c, n);
    PassOk(s0, s, p, c, n, n - 1);
    StarvedPass(s0, s, p, c, n);
  }

  /** No frame is left for the last pass, but in a run of one page for the table. */
  lemma LastFree(s0: Snap, p: nat, c: nat, n: nat)
    requires MayCopy(s0, p, c, n) && 0 < n <= ROOM && |s0.free| < n + 1
    ensures var s := CopyOf(s0, p, c, n, n - 1); s.free == {} || (n == 1 && |s.free| == 1)
  {
    if n > 1 {
      FreeLeft(s0, p, c, n, n - 1);
    }
  }

  /** A run that leaves its directory entry: the parent's first page behind it has
      been changed, or the child's is in frame 0. */
  lemma TooLong(s0: Snap, p: nat, c: nat, n: nat)
    requires MayCopy(s0, p, c, n) && n > ROOM
    ensures !Holds(Isolated(s0, CopyOf(s0, p, c, n, n), p, c, n, NPAGES))
  {
    var s' := CopyOf(s0, p, c, n, n);
    Unseal(LoopOk(s0, s', p, c, n));
    EntriesThere(s0, p, c, n, ROOM);
    assert RUN + ROOM == (RUN_INDEX + 1) * 1024;
    if RunFrame(s', c, ROOM) in s0.free {
      NotAsBefore(s0, s', p, c, n, ROOM);
    } else {
      NotFresh(s0, s', p, c, n, ROOM);
    }
  }

  /** With one free frame the copy of a single page gets it, and the table lands
      in frame 0. */
  lemma OneFrame(s0: Snap, p: nat, c: nat)
    requires MayCopy(s0, p, c, 1) && |s0.free| == 1
    ensures var s' := CopyOf(s0, p, c, 1, 1);
      && |s'.mem| == NF && c < NF && Target(s'.mem[c][RUN_INDEX]) == 0 && s'.free == {}
      && RunFrame(s', c, 0) in s0.free
      && s'.mem[RunFrame(s', c, 0)] == s0.mem[Target(RunEntry(s0, p, 1, 0))]
  {
    assert CopyOf(s0, p, c, 1, 0) == s0;
    PassOk(s0, s0, p, c, 1, 0);
    EntriesThere(s0, p, c, 1, 0);
    OneLeft(s0.free);
  }

  /** task_copy_vm isolates the child, with every frame still in its role, exactly
      if there is nothing to copy, or the run ends with its directory entry and
      there is a frame for each page and one for their table. */
  lemma CopyIsolatesIff(s0: Snap, p: nat, c: nat, n: nat)
    requires MayCopy(s0, p, c, n)
    ensures var s' := CopyOf(s0, p, c, n, n);
      Isolated(s0, s', p, c, n, NPAGES) && Inv(s') <==> n == 0 || (n <= ROOM && |s0.free| >= n + 1)
  {
    if n > ROOM {
      TooLong(s0, p, c, n);
    } else if n > 0 && |s0.free| < n + 1 {
      Starved(s0, p, c, n);
    } else {
      var t, fs := CopiedWhile(s0, p, c, n, n);
      WholeCopy(s0, CopyOf(s0, p, c, n, n), p, c, n, t, fs);
    }
  }

  lemma WholeRun(s0: Snap, p: nat, c: nat, n: nat) returns (t: nat, fs: seq<nat>)
    requires MayCopy(s0, p, c, n) && n <= ROOM && (n > 0 ==> |s0.free| >= n + 1)
    ensures Holds(Copied(s0, CopyOf(s0, p, c, n, n), p, c, n, n, t, fs))
  {
    t, fs := CopiedWhile(s0, p, c, n, n);
    Unseal(Copied(s0, CopyOf(s0, p, c, n, n), p, c, n, n, t, fs));
  }

  /** The next pass can be made, */
  lemma ReachedPass(s0: Snap, s: Snap, p: nat, c: nat, n: nat, k: nat, entry: Word, tentry: Word, unsure: bool)
    requires Reached(s0, s, p, c, n, k) && RunEntries(s0, p, n, k, entry, tentry) && (unsure || |s0.free| >= n + 1)
    ensures Passable(s, c, k, tentry) && RUN + k + 1 < NPAGES && (unsure || |s.free| >= if k == 0 then 2 else 1)
  {
    ReachedIs(s0, s, p, c, n, k);
    PassOk(s0, s, p, c, n, k);
    if k > 0 {
      FreeLeft(s0, p, c, n, k);
    }
  }

  /** and brings the loop there. */
  lemma ReachedNext(s0: Snap, s: Snap, s': Snap, p: nat, c: nat, n: nat, k: nat, entry: Word, tentry: Word)
    requires Reached(s0, s, p, c, n, k) && RunEntries(s0, p, n, k, entry, tentry)
    requires Passable(s, c, k, tentry) && s' == Pass(s, c, k, entry, tentry)
    ensures Reached(s0, s', p, c, n, k + 1)
  {
    ReachedIs(s0, s, p, c, n, k);
  }

  /** What the loop finds at page k: the parent's entries of the start. */
  lemma LoopReads(s0: Snap, s: Snap, p: nat, c: nat, n: nat, k: nat)
    requires MayCopy(s0, p, c, n) && k <= n && Sealed(LoopOk(s0, s, p, c, k))
    ensures |s.mem| == NF && s.mem[p] == s0.mem[p]
    ensures Present(s.mem[p][(RUN + k) / 1024]) ==> Target(s.mem[p][(RUN + k) / 1024]) < NF
    ensures Walk(s.mem, p, RUN + k) == if k < n then Some(RunEntry(s0, p, n, k)) else None
  {
    Unseal(LoopOk(s0, s, p, c, k));
    ReadsAsBefore(s0, s, p, c, n, k);
    assert EntryOk(s0, s0.mem[p][(RUN + k) / 1024], (RUN + k) / 1024);
  }

  lemma WholeCopy(s0: Snap, s: Snap, p: nat, c: nat, n: nat, t: nat, fs: seq<nat>)
    requires Sealed(Copied(s0, s, p, c, n, n, t, fs))
    ensures Isolated(s0, s, p, c, n, NPAGES) && Inv(s)
  {
    Unseal(Copied(s0, s, p, c, n, n, t, fs));
    CopiedIsolated(s0, s, p, c, n, t, fs);
    CopiedReads(s0, s, p, c, n, n, t, fs);
  }
}
