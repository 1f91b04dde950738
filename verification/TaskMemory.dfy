/** The memory side of task_alloc and task_fork, from the state before the call
    to the state after it. */
module TaskMemory {
  import opened Wrappers
  import opened Words
  import opened Paging
  import opened Mapping
  import opened Directories
  import opened UserMaps
  import opened Forking

  /** Nothing that was there has been disturbed. */
  ghost predicate Grew(s: Snap, s': Snap) {
    && Valid(s) && Valid(s') && TranslationsKept(s, s') && DataKept(s, s')
    && s'.kc == s.kc && s'.ioc == s.ioc && s'.free <= s.free
  }

  ghost predicate SameCaches(s: Snap, s': Snap) {
    && Roles(s) && Roles(s') && s'.kc == s.kc && s'.ioc == s.ioc
    && s'.mem[s.kc] == s.mem[s.kc] && s'.mem[s.ioc] == s.mem[s.ioc]
  }

  lemma GrewTrans(s: Snap, s1: Snap, s2: Snap)
    requires Holds(Grew(s, s1)) && Holds(Grew(s1, s2))
    ensures Holds(Grew(s, s2))
  {
    forall x, p | x in s.dirs && 0 <= p < NPAGES ensures Walk(s2.mem, x, p) == Walk(s.mem, x, p) {
      assert Walk(s1.mem, x, p) == Walk(s.mem, x, p);
    }
  }

  lemma GrewRefl(s: Snap)
    requires Holds(Valid(s))
    ensures Holds(Grew(s, s))
  {
  }

  lemma TakenGrew(s: Snap, s': Snap, f: nat)
    requires Holds(Valid(s)) && Holds(Taken(s, s', f))
    ensures Holds(Grew(s, s')) && Holds(SameCaches(s, s')) && IsData(s', f) && |s'.free| == |s.free| - 1
    ensures Need(s') == Need(s)
  {
    TakenKeeps(s, s', f);
    assert s.free == s'.free + {f};
  }

  lemma BuiltGrew(s: Snap, s': Snap, r: Option<nat>)
    requires Holds(Built(s, s', r))
    ensures Holds(Grew(s, s'))
  {
  }

  /** The stack of a directory that was not there in s, in a table of its own. */
  lemma StackGrew(s: Snap, s1: Snap, s2: Snap, c: nat, u: nat, pte: Word)
    requires Holds(Grew(s, s1)) && c !in s.dirs && c in s1.dirs && Holds(UserMapped(s1, s2, c, u, pte))
    requires !Present(s1.mem[c][u / 1024])
    ensures Holds(Grew(s, s2))
  {
    UserKeepsValid(s1, s2, c, u, pte);
    UserKeepsData(s1, s2, c, u, pte);
    forall x, q | x in s.dirs && 0 <= q < NPAGES ensures Walk(s2.mem, x, q) == Walk(s.mem, x, q) {
      UserWalksElsewhere(s1, s2, c, u, pte, x, q);
      assert Walk(s1.mem, x, q) == Walk(s.mem, x, q);
    }
  }

  /** Writing a data frame that was free in s. */
  lemma WrittenGrew(s: Snap, s1: Snap, s2: Snap, f: nat)
    requires Holds(Grew(s, s1)) && Holds(Written(s1, s2, f)) && f in s.free
    ensures Holds(Grew(s, s2))
  {
    WrittenKeeps(s1, s2, f);
    forall x, q | x in s.dirs && 0 <= q < NPAGES ensures Walk(s2.mem, x, q) == Walk(s.mem, x, q) {
      assert Walk(s1.mem, x, q) == Walk(s.mem, x, q);
    }
  }

  /** (uesp & 0xFFFFF000) | PTE_P | PTE_W | PTE_U */
  function StackEntry(u: nat): (e: Word)
    requires u < NF
    ensures Target(e) == u && Present(e)
  {
    Split(u, 7);
    u * 4096 + 7
  }

  lemma UserEntry(u: nat)
    requires u < NF
    ensures Entry(PageBase(u * 4096), UserFlags()) == StackEntry(u)
  {
    assert Or(Or(0, PTE_P), 6) == 7;
    assert PageBase(u * 4096) == u * 4096;
    var e := Entry(u * 4096, UserFlags());
    assert e == Target(e) * 4096 + e % 4096;
  }

  lemma UserEntryAt(va: Word, u: nat)
    requires u < NF && va / 4096 == u
    ensures Entry(PageBase(va), UserFlags()) == StackEntry(u)
  {
    assert PageBase(va) == u * 4096;
    UserEntry(u);
  }

  /** task_alloc after its first two frames. */
  ghost predicate TwoTaken(s: Snap, s': Snap, task: nat, kstack: nat) {
    && Grew(s, s') && s'.dirs == s.dirs && Need(s') == Need(s)
    && task in s.free && kstack in s.free && task != kstack && IsData(s', task) && IsData(s', kstack)
    && |s'.free| + 2 == |s.free|
  }

  lemma TakeTwo(s: Snap, s1: Snap, s2: Snap, task: nat, kstack: nat)
    requires Holds(Valid(s)) && Holds(Taken(s, s1, task)) && Holds(Taken(s1, s2, kstack))
    ensures Holds(TwoTaken(s, s2, task, kstack))
  {
    TakenGrew(s, s1, task);
    TakenGrew(s1, s2, kstack);
    GrewTrans(s, s1, s2);
  }

  /** ... after its directory. */
  ghost predicate WithDirectory(s: Snap, s': Snap, task: nat, kstack: nat, c: nat) {
    && Grew(s, s') && s'.dirs == s.dirs + {c} && c !in s.dirs && c in s.free
    && task in s.free && kstack in s.free && task != kstack && IsData(s', task) && IsData(s', kstack)
    && |s'.free| + 2 + Need(s) == |s.free|
    && (forall q :: 0 <= q < NPAGES ==> Walk(s'.mem, c, q) == BootWalk(q))
    && (forall i :: 0 <= i < 768 ==> !Present(s'.mem[c][i]))
  }

  lemma AddBuilt(s: Snap, s1: Snap, s2: Snap, task: nat, kstack: nat, c: nat)
    requires Holds(TwoTaken(s, s1, task, kstack)) && Holds(Built(s1, s2, Some(c)))
    ensures Holds(WithDirectory(s, s2, task, kstack, c))
  {
    BuiltGrew(s1, s2, Some(c));
    GrewTrans(s, s1, s2);
    assert IsData(s2, task) && IsData(s2, kstack);
  }

  /** ... after its stack is allocated and mapped. */
  ghost predicate WithStack(s: Snap, s': Snap, task: nat, kstack: nat, c: nat, u: nat) {
    && Grew(s, s') && s'.dirs == s.dirs + {c} && c !in s.dirs && c in s.free
    && task in s.free && kstack in s.free && u in s.free && task != kstack && u != task && u != kstack && u != c
    && IsData(s', task) && IsData(s', kstack) && IsData(s', u)
    && |s'.free| + 4 + Need(s) == |s.free|
    && (forall q :: 0 <= q < NPAGES ==> Walk(s'.mem, c, q) == if q == u then Some(StackEntry(u)) else BootWalk(q))
  }

  lemma AddStack(s: Snap, s1: Snap, s2: Snap, s3: Snap, task: nat, kstack: nat, c: nat, u: nat)
    requires Holds(WithDirectory(s, s1, task, kstack, c)) && Holds(Taken(s1, s2, u)) && u < NF
    requires Holds(UserMapped(s2, s3, c, u, StackEntry(u)))
    ensures Holds(WithStack(s, s3, task, kstack, c, u))
  {
    TakenGrew(s1, s2, u);
    GrewTrans(s, s1, s2);
    StackGrew(s, s2, s3, c, u, StackEntry(u));
    UserKeepsData(s2, s3, c, u, StackEntry(u));
    assert IsData(s2, task) && IsData(s2, kstack) && IsData(s2, u);
    StackWalks(s1, s2, s3, c, u);
    var t := TableFor(s2, c, u / 1024, NoCache);
    assert s2.free == s3.free + {t} && t !in s3.free;
  }

  /** The outcome of mapping the stack in the new directory: it needs a table. */
  lemma StackResult(s: Snap, s1: Snap, s2: Snap, s3: Snap, task: nat, kstack: nat, c: nat, u: nat, va: Word, rc: int)
    requires Holds(WithDirectory(s, s1, task, kstack, c)) && Holds(Taken(s1, s2, u)) && u < NF && va == 4096 * u
    requires Holds(MapPageResult(s2, s3, c, va, Entry(PageBase(va), UserFlags()), UserFlags(), 0, rc))
    ensures rc == 0 ==> |s.free| >= Need(s) + 4 && Holds(WithStack(s, s3, task, kstack, c, u))
    ensures rc == 0 ==> |s1.mem| == NF && |s3.mem| == NF && s3.mem[u] == s1.mem[u]
    ensures rc != 0 ==> Holds(StackMade(s, s3, task, kstack, c, 0))
  {
    assert va == u * 4096;
    UserEntry(u);
    TakenGrew(s1, s2, u);
    GrewTrans(s, s1, s2);
    if rc == 0 {
      AddStack(s, s1, s2, s3, task, kstack, c, u);
      UserKeepsData(s2, s3, c, u, StackEntry(u));
    } else {
      assert s2.free == {};
    }
  }

  lemma StackReady(s: Snap, s1: Snap, s2: Snap, task: nat, kstack: nat, c: nat, u: nat)
    requires Holds(WithDirectory(s, s1, task, kstack, c)) && Holds(Taken(s1, s2, u))
    ensures Inv(s2) && c in s2.dirs
  {
    TakenInv(s1, s2, u);
  }

  lemma FramesForStack(s: Snap, s1: Snap, task: nat, kstack: nat, c: nat, unsure: bool)
    requires Holds(WithDirectory(s, s1, task, kstack, c)) && (unsure || |s.free| >= Need(s) + 4)
    ensures Holds(Valid(s1)) && (unsure || |s1.free| >= 2)
  {
  }

  /** The user stack has been allocated and mapped, or there were too few frames;
      uesp is its top, or 0. */
  ghost predicate StackMade(s: Snap, s': Snap, task: nat, kstack: nat, c: nat, uesp: Word) {
    Grew(s, s') && |s.free| >= 2 &&
    if uesp == 0 then |s.free| < Need(s) + 4
    else
      && |s.free| >= Need(s) + 4
      && uesp % 4096 == 4076 && uesp / 4096 < NF && WithStack(s, s', task, kstack, c, uesp / 4096)
  }

  /** uesp += PGSIZE - 20 */
  lemma StackTop(s: Snap, s': Snap, task: nat, kstack: nat, c: nat, u: nat)
    requires u < NF && Holds(WithStack(s, s', task, kstack, c, u)) && |s.free| >= Need(s) + 4
    ensures u * 4096 + 4076 < 0x1_0000_0000 && (u * 4096 + 4076) / 4096 == u
    ensures Holds(StackMade(s, s', task, kstack, c, u * 4096 + 4076))
  {
    Split(u, 4076);
  }

  lemma NoStack(s: Snap, s1: Snap, task: nat, kstack: nat, c: nat)
    requires Holds(WithDirectory(s, s1, task, kstack, c)) && s1.free == {}
    ensures Holds(StackMade(s, s1, task, kstack, c, 0))
  {
  }

  lemma StackWalks(s1: Snap, s2: Snap, s3: Snap, c: nat, u: nat)
    requires Holds(Taken(s1, s2, u)) && u < NF && Inv(s1) && c in s1.dirs
    requires Holds(UserMapped(s2, s3, c, u, StackEntry(u)))
    requires forall q :: 0 <= q < NPAGES ==> Walk(s1.mem, c, q) == BootWalk(q)
    ensures forall q :: 0 <= q < NPAGES ==> Walk(s3.mem, c, q) == if q == u then Some(StackEntry(u)) else BootWalk(q)
  {
    forall q | 0 <= q < NPAGES
      ensures Walk(s3.mem, c, q) == if q == u then Some(StackEntry(u)) else BootWalk(q)
    {
      UserWalks(s2, s3, c, u, StackEntry(u), q);
    }
  }

  /** Writing into one of the new data frames keeps this. */
  lemma StackWritten(s: Snap, s1: Snap, s2: Snap, task: nat, kstack: nat, c: nat, u: nat)
    requires Holds(WithStack(s, s1, task, kstack, c, u)) && Holds(Written(s1, s2, u))
    ensures Holds(WithStack(s, s2, task, kstack, c, u))
  {
    WrittenGrew(s, s1, s2, u);
    WrittenKeeps(s1, s2, u);
  }

  /** task_alloc succeeded: the new directory c has the boot translations and
      its stack, all frames are new, and nothing else has changed. */
  ghost predicate Allocated(s: Snap, s': Snap, task: nat, kstack: nat, c: nat, u: nat, ctx: nat) {
    && Grew(s, s') && s'.dirs == s.dirs + {c} && c !in s.dirs && c in s.free
    && task in s.free && kstack in s.free && u in s.free && ctx in s.free
    && task != kstack && u != task && u != kstack && u != c && ctx != task && ctx != kstack && ctx != c && ctx != u
    && IsData(s', task) && IsData(s', kstack) && IsData(s', u) && IsData(s', ctx)
    && |s'.free| + 5 + Need(s) == |s.free|
    && (forall q :: 0 <= q < NPAGES ==> Walk(s'.mem, c, q) == if q == u then Some(StackEntry(u)) else BootWalk(q))
  }

  lemma AddContext(s: Snap, s1: Snap, s2: Snap, task: nat, kstack: nat, c: nat, u: nat, ctx: nat)
    requires Holds(WithStack(s, s1, task, kstack, c, u)) && Holds(Taken(s1, s2, ctx))
    ensures Holds(Allocated(s, s2, task, kstack, c, u, ctx))
  {
    TakenGrew(s1, s2, ctx);
    GrewTrans(s, s1, s2);
    assert IsData(s1, task) && IsData(s1, kstack) && IsData(s1, u);
  }

  // ------------------------------------------------------------------- fork

  /** The run as the fork finds it after task_alloc and the directory copy. */
  lemma RunAtCopy(s: Snap, s1: Snap, s2: Snap, p: nat, c: nat, n: nat)
    requires Holds(Grew(s, s1)) && p in s.dirs && c in s1.dirs && p != c && IsRun(s, p, n)
    requires Holds(DirCopied(s1, s2, p, c))
    ensures Holds(Valid(s2)) && DataKept(s, s2) && s2.free <= s.free && IsRun(s2, p, n)
    ensures forall k :: 0 <= k < n ==> RunEntry(s2, p, n, k) == RunEntry(s, p, n, k)
  {
    DirCopiedValid(s1, s2, p, c);
    forall q | 0 <= q < NPAGES ensures Walk(s2.mem, p, q) == Walk(s.mem, p, q) {
      DirCopiedWalks(s1, s2, p, c, p, q);
      assert Walk(s1.mem, p, q) == Walk(s.mem, p, q);
    }
    RunKept(s, s2, p, n);
  }

  /** What is isolated from the moment of the copy is isolated from before. */
  lemma IsolatedLift(s: Snap, s2: Snap, s': Snap, p: nat, c: nat, n: nat, stack: nat)
    requires IsRun(s, p, n) && IsRun(s2, p, n) && DataKept(s, s2) && s2.free <= s.free
    requires forall k :: 0 <= k < n ==> RunEntry(s2, p, n, k) == RunEntry(s, p, n, k)
    requires Holds(Isolated(s2, s', p, c, n, stack))
    ensures Holds(Isolated(s, s', p, c, n, stack))
  {
    forall k | 0 <= k < n ensures ParentPage(s, s', p, n, k) {
      assert ParentPage(s2, s', p, n, k);
    }
    forall k | 0 <= k < n && RUN + k != stack ensures ChildPage(s, s', p, c, n, k) {
      assert ChildPage(s2, s', p, c, n, k);
    }
  }

  lemma CopiedSeparate(s2: Snap, s3: Snap, p: nat, c: nat, n: nat, t: nat, fs: seq<nat>)
    requires Holds(Copied(s2, s3, p, c, n, n, t, fs))
    ensures p < |s3.mem| && c < |s3.mem| && Holds(SeparateTables(s3, p, c, n))
    ensures |s3.mem| == NF && c < NF && n <= ROOM
    ensures forall k :: 0 <= k < n ==> IsData(s3, RunFrame(s3, c, k)) && RunFrame(s3, c, k) in s2.free
  {
    CopiedReads(s2, s3, p, c, n, n, t, fs);
    forall k | 0 <= k < n ensures IsData(s3, RunFrame(s3, c, k)) && RunFrame(s3, c, k) in s2.free {
      CopiedChild(s2, s3, p, c, n, t, fs, k);
    }
    if n > 0 {
      RunEntryIs(s2, p, n, 0);
    }
  }

  /** Copy and stack mapping together, seen from before the fork. */
  lemma ForkIsolated(s: Snap, s1: Snap, s2: Snap, s3: Snap, s4: Snap, p: nat, c: nat, n: nat, t: nat, fs: seq<nat>,
                     u: nat)
    requires Holds(Grew(s, s1)) && p in s.dirs && c in s1.dirs && p != c && Holds(IsRun(s, p, n))
    requires Holds(DirCopied(s1, s2, p, c)) && Holds(Copied(s2, s3, p, c, n, n, t, fs)) && u < NF
    requires Holds(UserMapped(s3, s4, c, u, StackEntry(u)))
    ensures Holds(Isolated(s, s4, p, c, n, u)) && Holds(Valid(s4))
    ensures |s4.mem| == NF && c < NF && Walk(s4.mem, c, u) == Some(StackEntry(u))
    ensures n <= ROOM && s4.dirs == s1.dirs
    ensures forall k :: 0 <= k < n && RUN + k != u ==> RunFrame(s4, c, k) in s1.free
    ensures forall f: nat :: IsData(s1, f) ==> IsData(s4, f)
  {
    RunAtCopy(s, s1, s2, p, c, n);
    CopiedIsolated(s2, s3, p, c, n, t, fs);
    CopiedSeparate(s2, s3, p, c, n, t, fs);
    CopiedData(s2, s3, p, c, n, n, t, fs);
    CopiedValid(s2, s3, p, c, n, n, t, fs);
    StackIsolated(s2, s3, s4, p, c, n, u, StackEntry(u));
    UserKeepsValid(s3, s4, c, u, StackEntry(u));
    UserWalks(s3, s4, c, u, StackEntry(u), u);
    UserKeepsData(s3, s4, c, u, StackEntry(u));
    DirCopiedValid(s1, s2, p, c);
    IsolatedLift(s, s2, s4, p, c, n, u);
  }

  /** The fork whose stack could not be mapped has copied the run all the same. */
  lemma ForkUnmapped(s: Snap, s1: Snap, s2: Snap, s3: Snap, p: nat, c: nat, n: nat, t: nat, fs: seq<nat>)
    requires Holds(Grew(s, s1)) && p in s.dirs && c in s1.dirs && p != c && Holds(IsRun(s, p, n))
    requires Holds(DirCopied(s1, s2, p, c)) && Holds(Copied(s2, s3, p, c, n, n, t, fs))
    ensures Holds(Isolated(s, s3, p, c, n, NPAGES)) && Holds(Valid(s3)) && s3.dirs == s1.dirs && c < NF
    ensures n <= ROOM
  {
    RunAtCopy(s, s1, s2, p, c, n);
    CopiedIsolated(s2, s3, p, c, n, t, fs);
    CopiedValid(s2, s3, p, c, n, n, t, fs);
    IsolatedLift(s, s2, s3, p, c, n, NPAGES);
  }

  // ---------------------------------------------------------- everybody else

  /** What the fork leaves alone: all data, and every translation of every
      directory there was, but that where the child's stack was put in a table it
      shares, the page of the stack leads there too; a directory with a run shares
      no table with the child there. */
  ghost predicate Spared(s: Snap, s': Snap, stack: nat) {
    && Inv(s) && Inv(s') && s.dirs <= s'.dirs && DataKept(s, s')
    && (forall x, q :: x in s.dirs && 0 <= q < NPAGES ==>
          Walk(s'.mem, x, q) == Walk(s.mem, x, q)
          || (q == stack < NF && Walk(s'.mem, x, q) == Some(StackEntry(stack))
              && !(stack / 1024 == RUN_INDEX && RunPage(s, x, 0))))
  }

  lemma CopySpares(s: Snap, s1: Snap, s2: Snap, s3: Snap, p: nat, c: nat, n: nat, t: nat, fs: seq<nat>)
    requires Holds(Grew(s, s1)) && p in s.dirs && c in s1.dirs && c !in s.dirs && Holds(IsRun(s, p, n))
    requires Holds(DirCopied(s1, s2, p, c)) && Holds(Copied(s2, s3, p, c, n, n, t, fs))
    ensures Holds(Spared(s, s3, NPAGES))
  {
    RunAtCopy(s, s1, s2, p, c, n);
    CopiedData(s2, s3, p, c, n, n, t, fs);
    CopiedReads(s2, s3, p, c, n, n, t, fs);
    forall x, q | x in s.dirs && 0 <= q < NPAGES ensures Walk(s3.mem, x, q) == Walk(s.mem, x, q) {
      assert Walk(s1.mem, x, q) == Walk(s.mem, x, q);
      DirCopiedWalks(s1, s2, p, c, x, q);
      CopiedElsewhere(s2, s3, p, c, n, n, t, fs, x, q);
    }
  }

  /** The child's first page, if it has one, is in a frame that was free in s. */
  ghost predicate FreshRun(s: Snap, s3: Snap, c: nat) {
    |s3.mem| == NF && c < NF
    && (Walk(s3.mem, c, RUN).Some? ==> Target(Walk(s3.mem, c, RUN).value) in s.free)
  }

  lemma CopyFresh(s: Snap, s1: Snap, s2: Snap, s3: Snap, p: nat, c: nat, n: nat, t: nat, fs: seq<nat>)
    requires Holds(Grew(s, s1)) && p in s.dirs && c in s1.dirs && p != c && Holds(IsRun(s, p, n))
    requires Holds(DirCopied(s1, s2, p, c)) && Holds(Copied(s2, s3, p, c, n, n, t, fs))
    ensures Holds(FreshRun(s, s3, c))
  {
    RunAtCopy(s, s1, s2, p, c, n);
    if n > 0 {
      CopiedChild(s2, s3, p, c, n, t, fs, 0);
    } else {
      DirCopiedWalks(s1, s2, p, c, c, RUN);
      assert Walk(s1.mem, p, RUN) == Walk(s.mem, p, RUN);
    }
  }

  lemma StackSpares(s: Snap, s3: Snap, s4: Snap, c: nat, u: nat)
    requires Holds(Spared(s, s3, NPAGES)) && c !in s.dirs && u < NF
    requires Holds(UserMapped(s3, s4, c, u, StackEntry(u))) && Holds(FreshRun(s, s3, c))
    ensures Holds(Spared(s, s4, u))
  {
    MapKeepsInv(s3, s4, c, u, StackEntry(u), UserFlags(), NoCache);
    UserKeepsData(s3, s4, c, u, StackEntry(u));
    forall x, q | x in s.dirs && 0 <= q < NPAGES
      ensures Walk(s4.mem, x, q) == Walk(s.mem, x, q)
              || (q == u && Walk(s4.mem, x, q) == Some(StackEntry(u)) && !(u / 1024 == RUN_INDEX && RunPage(s, x, 0)))
    {
      assert Walk(s3.mem, x, q) == Walk(s.mem, x, q);
      if u / 1024 == RUN_INDEX && RunPage(s, x, 0) {
        assert Walk(s3.mem, x, RUN) == Walk(s.mem, x, RUN);
        UserWalksElsewhere(s3, s4, c, u, StackEntry(u), x, q);
      }
      MapWalksElsewhere(s3, s4, c, u, StackEntry(u), UserFlags(), NoCache, x, q);
    }
  }

  lemma WriteSpares(s: Snap, s4: Snap, s5: Snap, stack: nat, f: nat)
    requires Holds(Spared(s, s4, stack)) && Holds(Valid(s4)) && Holds(Written(s4, s5, f)) && f in s.free
    ensures Holds(Spared(s, s5, stack))
  {
    WrittenKeeps(s4, s5, f);
    forall x, q | x in s.dirs && 0 <= q < NPAGES ensures Walk(s5.mem, x, q) == Walk(s4.mem, x, q) {}
  }

  // ------------------------------------------------------------ the whole fork

  /** Parent and child have tables of their own for the run. */
  ghost predicate OwnTables(s: Snap, p: nat, c: nat) {
    && p < |s.mem| && c < |s.mem|
    && (Present(s.mem[p][RUN_INDEX]) && Present(s.mem[c][RUN_INDEX]) ==>
          Target(s.mem[p][RUN_INDEX]) != Target(s.mem[c][RUN_INDEX]))
  }

  /** The child's stack is in a frame that was free, other than those of its run. */
  ghost predicate StackIn(s: Snap, s': Snap, c: nat, n: nat, stack: nat)
    requires |s'.mem| == NF && c < NF && RUN + n < NPAGES
  {
    stack < NF ==>
      && stack in s.free && IsData(s', stack) && Walk(s'.mem, c, stack) == Some(StackEntry(stack))
      && forall k :: 0 <= k < n && RUN + k != stack ==> RunFrame(s', c, k) != stack
  }

  /** The child's address space c is complete but for the kernel stack: isolated
      from the parent's over the run, everything else spared. Its stack is page
      `stack`, or is not mapped if that is no page. */
  ghost predicate ForkedSpace(s: Snap, s': Snap, p: nat, c: nat, n: nat, stack: nat) {
    && Valid(s') && p in s.dirs && c in s'.dirs && c !in s.dirs && n <= ROOM
    && Isolated(s, s', p, c, n, stack) && Spared(s, s', stack)
    && (n > 0 ==> OwnTables(s', p, c))
    && StackIn(s, s', c, n, stack) && RestShared(s, s', p, c, n, stack)
  }

  /** Outside the directory entry of the run the child walks as the parent did, but
      for its stack. */
  ghost predicate RestShared(s: Snap, s': Snap, p: nat, c: nat, n: nat, stack: nat)
    requires |s.mem| == NF && |s'.mem| == NF && p < NF && c < NF
  {
    forall q :: 0 <= q < NPAGES && (q / 1024 != RUN_INDEX || n == 0) && q != stack ==>
      Walk(s'.mem, c, q) == Walk(s.mem, p, q)
  }

  lemma CopyShares(s: Snap, s1: Snap, s2: Snap, s3: Snap, p: nat, c: nat, n: nat, t: nat, fs: seq<nat>)
    requires Holds(Grew(s, s1)) && p in s.dirs && c in s1.dirs && p != c && Holds(IsRun(s, p, n))
    requires Holds(DirCopied(s1, s2, p, c)) && Holds(Copied(s2, s3, p, c, n, n, t, fs))
    ensures |s.mem| == NF && |s3.mem| == NF && p < NF && c < NF && Holds(RestShared(s, s3, p, c, n, NPAGES))
  {
    RunAtCopy(s, s1, s2, p, c, n);
    forall q | 0 <= q < NPAGES && (q / 1024 != RUN_INDEX || n == 0) ensures Walk(s3.mem, c, q) == Walk(s.mem, p, q) {
      assert Walk(s1.mem, p, q) == Walk(s.mem, p, q);
      DirCopiedWalks(s1, s2, p, c, c, q);
      if n > 0 {
        CopiedElsewhere(s2, s3, p, c, n, n, t, fs, c, q);
      }
    }
  }

  lemma StackShares(s: Snap, s3: Snap, s4: Snap, p: nat, c: nat, n: nat, u: nat)
    requires |s.mem| == NF && |s3.mem| == NF && p < NF && c < NF && Holds(RestShared(s, s3, p, c, n, NPAGES))
    requires u < NF && Holds(UserMapped(s3, s4, c, u, StackEntry(u)))
    ensures |s4.mem| == NF && Holds(RestShared(s, s4, p, c, n, u))
  {
    forall q | 0 <= q < NPAGES && (q / 1024 != RUN_INDEX || n == 0) && q != u
      ensures Walk(s4.mem, c, q) == Walk(s.mem, p, q)
    {
      UserWalks(s3, s4, c, u, StackEntry(u), q);
      assert Walk(s3.mem, c, q) == Walk(s.mem, p, q);
    }
  }

  lemma StackMapped(s3: Snap, s4: Snap, c: nat, u: nat, va: Word, pte: Word)
    requires u < NF && va / 4096 == u && pte == StackEntry(u)
    requires Holds(MapPageResult(s3, s4, c, va, pte, UserFlags(), 0, 0))
    ensures Holds(UserMapped(s3, s4, c, u, StackEntry(u)))
  {
  }

  /** The stack mapping leaves the tables of the run where they are. */
  lemma StackOwnTables(s3: Snap, s4: Snap, p: nat, c: nat, n: nat, u: nat)
    requires Inv(s3) && p in s3.dirs && c in s3.dirs && p != c && n > 0
    requires Present(s3.mem[p][RUN_INDEX]) && Present(s3.mem[c][RUN_INDEX])
    requires u < NF && Holds(SeparateTables(s3, p, c, n)) && Holds(UserMapped(s3, s4, c, u, StackEntry(u)))
    ensures OwnTables(s4, p, c)
  {
  }

  lemma RunTables(s2: Snap, s3: Snap, p: nat, c: nat, n: nat, t: nat, fs: seq<nat>)
    requires Holds(Copied(s2, s3, p, c, n, n, t, fs)) && n > 0
    ensures Inv(s3) && p in s3.dirs && c in s3.dirs
    ensures Present(s3.mem[p][RUN_INDEX]) && Present(s3.mem[c][RUN_INDEX]) && Holds(SeparateTables(s3, p, c, n))
  {
    CopiedReads(s2, s3, p, c, n, n, t, fs);
    CopiedSeparate(s2, s3, p, c, n, t, fs);
    RunEntryIs(s2, p, n, 0);
  }

  /** Copy and stack mapping together spare everybody else. */
  lemma ForkSpared(s: Snap, s1: Snap, s2: Snap, s3: Snap, s4: Snap, p: nat, c: nat, n: nat, t: nat, fs: seq<nat>,
                   u: nat)
    requires Holds(Grew(s, s1)) && p in s.dirs && c in s1.dirs && c !in s.dirs && Holds(IsRun(s, p, n))
    requires Holds(DirCopied(s1, s2, p, c)) && Holds(Copied(s2, s3, p, c, n, n, t, fs)) && u < NF
    requires Holds(UserMapped(s3, s4, c, u, StackEntry(u)))
    ensures Holds(Spared(s, s4, u))
    ensures n > 0 ==> OwnTables(s4, p, c)
  {
    CopySpares(s, s1, s2, s3, p, c, n, t, fs);
    CopyFresh(s, s1, s2, s3, p, c, n, t, fs);
    StackSpares(s, s3, s4, c, u);
    if n > 0 {
      RunTables(s2, s3, p, c, n, t, fs);
      StackOwnTables(s3, s4, p, c, n, u);
    }
  }

  /** The child's stack has been mapped in its copied directory. */
  lemma ForkMapped(s: Snap, s1: Snap, s2: Snap, s3: Snap, s4: Snap, p: nat, c: nat, n: nat, t: nat, fs: seq<nat>,
                   u: nat)
    requires Holds(Grew(s, s1)) && p in s.dirs && c in s1.dirs && c !in s.dirs && Holds(IsRun(s, p, n))
    requires Holds(DirCopied(s1, s2, p, c)) && Holds(Copied(s2, s3, p, c, n, n, t, fs)) && u < NF
    requires u in s.free && IsData(s1, u) && Holds(UserMapped(s3, s4, c, u, StackEntry(u)))
    ensures Holds(ForkedSpace(s, s4, p, c, n, u)) && Holds(CopiesNew(s1, s4, c, n, u))
  {
    ForkSpared(s, s1, s2, s3, s4, p, c, n, t, fs, u);
    ForkIsolated(s, s1, s2, s3, s4, p, c, n, t, fs, u);
    assert StackIn(s, s4, c, n, u);
    CopyShares(s, s1, s2, s3, p, c, n, t, fs);
    StackShares(s, s3, s4, p, c, n, u);
  }

  lemma ForkNotMapped(s: Snap, s1: Snap, s2: Snap, s3: Snap, p: nat, c: nat, n: nat, t: nat, fs: seq<nat>)
    requires Holds(Grew(s, s1)) && p in s.dirs && c in s1.dirs && c !in s.dirs && Holds(IsRun(s, p, n))
    requires Holds(DirCopied(s1, s2, p, c)) && Holds(Copied(s2, s3, p, c, n, n, t, fs))
    ensures Holds(ForkedSpace(s, s3, p, c, n, NPAGES))
  {
    CopySpares(s, s1, s2, s3, p, c, n, t, fs);
    ForkUnmapped(s, s1, s2, s3, p, c, n, t, fs);
    CopyShares(s, s1, s2, s3, p, c, n, t, fs);
    if n > 0 {
      RunTables(s2, s3, p, c, n, t, fs);
    }
  }

  /** The outcome of mapping the child's stack in its copied directory. */
  lemma ForkResult(s: Snap, s1: Snap, s2: Snap, s3: Snap, s4: Snap, p: nat, c: nat, n: nat, t: nat, fs: seq<nat>,
                   u: nat, va: Word, rc: int)
    requires Holds(Grew(s, s1)) && p in s.dirs && c in s1.dirs && c !in s.dirs && Holds(IsRun(s, p, n))
    requires Holds(DirCopied(s1, s2, p, c)) && Holds(Copied(s2, s3, p, c, n, n, t, fs)) && u < NF
    requires va / 4096 == u && u in s.free && IsData(s1, u)
    requires Holds(MapPageResult(s3, s4, c, va, Entry(PageBase(va), UserFlags()), UserFlags(), 0, rc))
    ensures Holds(ForkedSpace(s, s4, p, c, n, if rc == 0 then u else NPAGES))
    ensures rc == 0 ==> Holds(CopiesNew(s1, s4, c, n, u))
  {
    UserEntryAt(va, u);
    if rc == 0 {
      StackMapped(s3, s4, c, u, va, Entry(PageBase(va), UserFlags()));
      ForkMapped(s, s1, s2, s3, s4, p, c, n, t, fs, u);
    } else {
      ForkNotMapped(s, s1, s2, s3, p, c, n, t, fs);
    }
  }

  /** The copied pages are in frames that were free, and no data has become free. */
  ghost predicate CopiesNew(s1: Snap, s4: Snap, c: nat, n: nat, u: nat) {
    && |s4.mem| == NF && c < NF && n <= ROOM
    && (forall k :: 0 <= k < n && RUN + k != u ==> RunFrame(s4, c, k) in s1.free)
    && (forall f: nat :: IsData(s1, f) ==> IsData(s4, f))
  }

  /** Filling the child's kernel stack, a new frame that is none of the copies,
      leaves the isolation alone. */
  lemma KernelStackIsolated(s: Snap, s1: Snap, s4: Snap, s5: Snap, p: nat, c: nat, n: nat, u: nat, f: nat)
    requires Holds(Isolated(s, s4, p, c, n, u)) && Holds(Valid(s4)) && Holds(Written(s4, s5, f))
    requires f in s.free && p in s4.dirs && c in s4.dirs
    requires |s4.mem| == NF && c < NF && n <= ROOM
    requires forall k :: 0 <= k < n && RUN + k != u ==> RunFrame(s4, c, k) != f
    ensures Holds(Isolated(s, s5, p, c, n, u)) && Holds(Valid(s5)) && |s5.mem| == NF
    ensures forall k :: 0 <= k < n && RUN + k != u ==> RunFrame(s5, c, k) == RunFrame(s4, c, k)
  {
    WrittenKeeps(s4, s5, f);
    forall k | 0 <= k < n ensures ParentPage(s, s5, p, n, k) {
      assert ParentPage(s, s4, p, n, k);
      assert IsData(s, Target(RunEntry(s, p, n, k)));
    }
    forall k | 0 <= k < n && RUN + k != u
      ensures ChildPage(s, s5, p, c, n, k) && RunFrame(s5, c, k) == RunFrame(s4, c, k)
    {
      assert ChildPage(s, s4, p, c, n, k);
    }
  }

  /** memcpy of the kernel stack from frame `from` to the child's frame `to` */
  lemma KernelStackForked(s: Snap, s1: Snap, s4: Snap, s5: Snap, p: nat, c: nat, n: nat, u: nat, to: nat, from: nat)
    requires Holds(ForkedSpace(s, s4, p, c, n, u)) && u < NF && Holds(CopiesNew(s1, s4, c, n, u))
    requires to in s.free && to !in s1.free && to < NF && from < NF
    requires Holds(Written(s4, s5, to)) && s5.mem[to] == s4.mem[from]
    ensures Holds(ForkedSpace(s, s5, p, c, n, u))
    ensures |s5.mem| == NF && (IsData(s, from) ==> s5.mem[to] == s.mem[from])
  {
    WrittenKeeps(s4, s5, to);
    KernelStackIsolated(s, s1, s4, s5, p, c, n, u, to);
    WriteSpares(s, s4, s5, u, to);
    forall q | 0 <= q < NPAGES && (q / 1024 != RUN_INDEX || n == 0) && q != u
      ensures Walk(s5.mem, c, q) == Walk(s.mem, p, q)
    {
      assert Walk(s4.mem, c, q) == Walk(s.mem, p, q) && Walk(s5.mem, c, q) == Walk(s4.mem, c, q);
    }
  }
}
