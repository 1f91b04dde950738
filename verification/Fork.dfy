/** The memory half of task_alloc, task_copy_vm and task_fork (task.c). */
module Fork {
  import opened Wrappers
  import opened Words
  import opened Paging
  import opened Mapping
  import opened Directories
  import opened UserMaps
  import opened Bytes
  import opened Forking
  import opened CopyLoop
  import opened TaskMemory
  import opened Vm
  import opened Elf
  import Ring

  /** The page walk task_copy_vm does by hand: entry and tentry for addr. */
  method WalkByHand(vm: AddressSpaces, pdir: Word, addr: Word) returns (entry: Word, tentry: Word)
    requires vm.Shape() && FrameOf(pdir) < NF
    requires var e := vm.ram[FrameOf(pdir)][PDIRE(addr)]; Present(e) ==> Target(e) < NF
    ensures entry == vm.ram[FrameOf(pdir)][PDIRE(addr)]
    ensures Present(entry) ==> Target(entry) < NF && tentry == vm.ram[Target(entry)][PTBLE(addr)]
    ensures Present(entry) && Present(tentry) ==> Walk(vm.Now().mem, FrameOf(pdir), Page(addr)) == Some(tentry)
    ensures !(Present(entry) && Present(tentry)) ==> Walk(vm.Now().mem, FrameOf(pdir), Page(addr)) == None
  {
    entry := vm.ram[FrameOf(pdir)][PDIRE(addr)];
    tentry := 0;
    if Present(entry) {
      EntryPointer(entry);
      tentry := vm.ram[FrameOf(P2KH(PageBase(entry)))][PTBLE(addr)];
    }
  }

  lemma EntryPointer(e: Word)
    requires Target(e) < NF
    ensures FrameOf(P2KH(PageBase(e))) == Target(e)
  {
  }

  /** The kernel address of whatever pm_alloc_frame answers */
  lemma Answered(free: set<nat>, pa: Word, rest: set<nat>)
    requires Handed(free, pa, rest) && forall f :: f in free ==> f < NF
    ensures FrameOf(P2KH(pa)) == NextFrame(free) < NF && rest == free - {NextFrame(free)}
  {
  }

  /** ptbl_cpy = pm_alloc_frame(); memcpy(ptbl_cpy, tentry_addr, 4096) */
  method CopyFrame(vm: AddressSpaces, tentry: Word, ghost c: nat) returns (copy: Word)
    requires vm.Shape() && Usable(vm.Now(), c) && vm.Enough(1) && Target(tentry) < NF
    modifies vm.ram, vm.pm.mngr, vm`free
    ensures vm.Shape() && FrameOf(copy) == NextFrame(old(vm.free))
    ensures vm.Now() == FrameStep(old(vm.Now()), c, tentry)
  {
    ghost var free := vm.free;
    var pa := vm.Alloc();
    Answered(free, pa, vm.free);
    copy := P2KH(pa);
    EntryPointer(tentry);
    vm.ram[FrameOf(copy)] := vm.ram[FrameOf(P2KH(PageBase(tentry)))];
  }

  /** pdir_cpy: allocated and entered in the directory, or read from it */
  method CopyTable(vm: AddressSpaces, c: nat, addr: Word, first: bool, entry: Word) returns (table: Word)
    requires vm.Shape() && Usable(vm.Now(), c)
    requires if first then vm.Enough(1) && PDIRE(addr) == RUN_INDEX else Target(vm.ram[c][PDIRE(addr)]) < NF
    modifies vm.ram, vm.pm.mngr, vm`free, vm`slot
    ensures vm.Shape() && vm.Now() == TableStep(old(vm.Now()), c, first, entry)
    ensures FrameOf(table) == Target(vm.ram[c][PDIRE(addr)]) < NF
  {
    if first {
      table := NewTable(vm, c, entry);
    } else {
      EntryPointer(vm.ram[c][PDIRE(addr)]);
      table := P2KH(PageBase(vm.ram[c][PDIRE(addr)]));
    }
  }

  method NewTable(vm: AddressSpaces, c: nat, entry: Word) returns (table: Word)
    requires vm.Shape() && Usable(vm.Now(), c) && vm.Enough(1)
    modifies vm.ram, vm.pm.mngr, vm`free, vm`slot
    ensures vm.Shape() && vm.Now() == TableStep(old(vm.Now()), c, true, entry)
    ensures FrameOf(table) == Target(vm.ram[c][RUN_INDEX]) < NF
  {
    ghost var s := vm.Now();
    var pa := vm.Alloc();
    Answered(s.free, pa, vm.free);
    table := P2KH(pa);
    ghost var t := FrameOf(table);
    vm.SetWord(c, RUN_INDEX, Retarget(FrameOf(table), entry));
    vm.slot := if t == 0 then vm.slot else vm.slot[t := RUN_INDEX];
    TableEntered(s, vm.Now(), c, t, entry);
  }

  lemma TableEntered(s: Snap, s': Snap, c: nat, t: nat, entry: Word)
    requires Usable(s, c) && t == NextFrame(s.free)
    requires s' == s.(mem := s.mem[c := s.mem[c][RUN_INDEX := Retarget(t, entry)]], free := s.free - {t},
                      slot := if t == 0 then s.slot else s.slot[t := RUN_INDEX])
    ensures s' == TableStep(s, c, true, entry) && Target(s'.mem[c][RUN_INDEX]) == t < NF
  {
  }

  /** One pass of the loop of task_copy_vm, once both entries are present. */
  method CopyPage(vm: AddressSpaces, npdir: Word, addr: Word, first: bool, entry: Word, tentry: Word, ghost k: nat)
    requires vm.Shape() && Passable(vm.Now(), FrameOf(npdir), k, tentry)
    requires vm.Enough(if first then 2 else 1) && (first <==> k == 0) && Page(addr) == RUN + k
    modifies vm.ram, vm.pm.mngr, vm`free, vm`slot
    ensures vm.Shape() && vm.Now() == Pass(old(vm.Now()), FrameOf(npdir), k, entry, tentry)
  {
    var copy := CopyFrame(vm, tentry, FrameOf(npdir));
    var table := CopyTable(vm, FrameOf(npdir), addr, first, entry);
    vm.SetWord(FrameOf(table), PTBLE(addr), Retarget(FrameOf(copy), tentry));
  }

  /** task_copy_vm: exactly the pages of the parent's run are gone through, with
      whatever pm_alloc_frame answers. */
  method TaskCopyVm(vm: AddressSpaces, fgpdir: Word, npdir: Word, ghost n: nat)
    requires vm.Shape() && MayCopy(vm.Now(), FrameOf(fgpdir), FrameOf(npdir), n) && vm.Enough(n + 1)
    modifies vm.ram, vm.pm.mngr, vm`free, vm`slot
    ensures vm.Shape()
    ensures MayCopy(old(vm.Now()), FrameOf(fgpdir), FrameOf(npdir), n)
    ensures vm.Now() == CopyOf(old(vm.Now()), FrameOf(fgpdir), FrameOf(npdir), n, n)
  {
    ghost var s := vm.Now();
    CopyBegins(s, FrameOf(fgpdir), FrameOf(npdir), n);
    CopyRun(vm, fgpdir, npdir, s, n);
    ReachedIs(s, vm.Now(), FrameOf(fgpdir), FrameOf(npdir), n, n);
  }

  method CopyRun(vm: AddressSpaces, fgpdir: Word, npdir: Word, ghost s: Snap, ghost n: nat)
    requires vm.Shape() && (vm.high == {} || |s.free| >= n + 1)
    requires Reached(s, vm.Now(), FrameOf(fgpdir), FrameOf(npdir), n, 0)
    modifies vm.ram, vm.pm.mngr, vm`free, vm`slot
    ensures vm.Shape() && Reached(s, vm.Now(), FrameOf(fgpdir), FrameOf(npdir), n, n)
  {
    var addr: Word := 0x0804_8080;
    var first := true;
    ghost var k: nat := 0;
    RunFirst();
    while true
      invariant vm.Shape() && k <= n && AtRun(addr, k) && (first <==> k == 0)
      invariant Reached(s, vm.Now(), FrameOf(fgpdir), FrameOf(npdir), n, k)
      decreases n - k
    {
      var entry, tentry := ReadRun(vm, fgpdir, npdir, addr, s, n, k);
      if !Present(entry) || !Present(tentry) {
        break;
      }
      CopyNextPage(vm, fgpdir, npdir, addr, first, entry, tentry, s, n, k);
      addr := NextAddress(addr, k);
      k := k + 1;
      first := false;
    }
    assert k == n;
  }

  /** addr += PGSIZE */
  method NextAddress(addr: Word, ghost k: nat) returns (next: Word)
    requires AtRun(addr, k) && RUN + k + 1 < NPAGES
    ensures AtRun(next, k + 1)
  {
    RunLoop(addr, k);
    next := NextPage(addr);
  }

  /** The entries for the k-th address: both present exactly inside the run. */
  method ReadRun(vm: AddressSpaces, fgpdir: Word, ghost npdir: Word, addr: Word, ghost s: Snap, ghost n: nat,
                 ghost k: nat)
    returns (entry: Word, tentry: Word)
    requires vm.Shape() && AtRun(addr, k) && Reached(s, vm.Now(), FrameOf(fgpdir), FrameOf(npdir), n, k)
    ensures k <= n && (Present(entry) && Present(tentry) <==> k < n)
    ensures k < n ==> RunEntries(s, FrameOf(fgpdir), n, k, entry, tentry)
    ensures RUN + k + 1 < NPAGES
  {
    ReachedIs(s, vm.Now(), FrameOf(fgpdir), FrameOf(npdir), n, k);
    RunLoop(addr, k);
    LoopReads(s, vm.Now(), FrameOf(fgpdir), FrameOf(npdir), n, k);
    entry, tentry := WalkByHand(vm, fgpdir, addr);
  }

  /** The pass for page k, which leads to the next state of the loop. */
  method CopyNextPage(vm: AddressSpaces, ghost fgpdir: Word, npdir: Word, addr: Word, first: bool, entry: Word,
                      tentry: Word, ghost s: Snap, ghost n: nat, ghost k: nat)
    requires vm.Shape() && AtRun(addr, k) && Reached(s, vm.Now(), FrameOf(fgpdir), FrameOf(npdir), n, k)
    requires k < n && (first <==> k == 0) && (vm.high == {} || |s.free| >= n + 1)
    requires RunEntries(s, FrameOf(fgpdir), n, k, entry, tentry)
    modifies vm.ram, vm.pm.mngr, vm`free, vm`slot
    ensures vm.Shape() && Reached(s, vm.Now(), FrameOf(fgpdir), FrameOf(npdir), n, k + 1)
  {
    ghost var before := vm.Now();
    ReachedPass(s, before, FrameOf(fgpdir), FrameOf(npdir), n, k, entry, tentry, vm.high == {});
    RunLoop(addr, k);
    CopyPage(vm, npdir, addr, first, entry, tentry, k);
    ReachedNext(s, before, vm.Now(), FrameOf(fgpdir), FrameOf(npdir), n, k, entry, tentry);
  }

  // -------------------------------------------------------------- task_alloc

  /** What the caller of task_alloc gets: the task's frames. */
  datatype NewTask = NewTask(task: Word, kstack: Word, pdir: Word, uesp: Word, ctx: Word)

  ghost predicate IsNew(s: Snap, s': Snap, t: NewTask) {
    && FrameOf(t.pdir) < NF && t.pdir == Kernel(FrameOf(t.pdir))
    && Allocated(s, s', FrameOf(t.task), FrameOf(t.kstack), FrameOf(t.pdir), t.uesp / 4096, FrameOf(t.ctx))
    && t.uesp % 4096 == 4076 && TopCleared(s', t.uesp)
  }

  /** The byte at the top of the stack is 0. */
  ghost predicate TopCleared(s: Snap, uesp: Word) {
    |s.mem| == NF && uesp / 4096 < NF && FrameByte(s.mem[uesp / 4096], uesp % 4096) == 0
  }

  /** How far task_fork gets with the free frames of s, `mapped` telling whether
      the child's stack can be mapped at the end. */
  ghost function OutcomeOf(s: Snap, mapped: bool): Ring.Outcome
    requires Inv(s)
  {
    if |s.free| < 2 then Ring.NoFrames
    else if |s.free| < Need(s) + 5 then Ring.NoDirectory
    else if !mapped then Ring.NoStack
    else Ring.Forked
  }

  /** What task_alloc does to memory: it succeeds exactly with enough frames, and
      in no case disturbs what was there. */
  ghost predicate TaskMade(s: Snap, s': Snap, r: Option<NewTask>, outcome: Ring.Outcome) {
    && Grew(s, s')
    && (r.Some? <==> |s.free| >= Need(s) + 5) && outcome == OutcomeOf(s, true)
    && (r.Some? ==> IsNew(s, s', r.value))
  }

  /** Of the frame that uesp points into, that byte has been cleared and no other
      changed. */
  ghost predicate ByteCleared(s: Snap, s': Snap, uesp: Word) {
    && |s.mem| == NF && |s'.mem| == NF && uesp / 4096 < NF
    && forall j :: 0 <= j < 4096 ==>
         FrameByte(s'.mem[uesp / 4096], j) == if j == uesp % 4096 then 0 else FrameByte(s.mem[uesp / 4096], j)
  }

  /** task_alloc up to the ring: None when it runs out of frames. */
  method TaskAlloc(vm: AddressSpaces) returns (r: Option<NewTask>, outcome: Ring.Outcome)
    requires vm.Shape() && vm.CachesSet() && Holds(Paging.Valid(vm.Now())) && vm.Enough(Need(vm.Now()) + 5)
    modifies vm.ram, vm.pm.mngr, vm`free, vm`slot, vm`dirs
    ensures vm.Shape() && Holds(TaskMade(old(vm.Now()), vm.Now(), r, outcome))
  {
    ghost var s := vm.Now();
    var task, kstack := AllocTwo(vm);
    ghost var s1 := vm.Now();
    if kstack == 0 {
      FewFrames(s, s1);
      return None, Ring.NoFrames;
    }
    TwoFrames(s, s1, FrameOf(task), FrameOf(kstack), vm.high == {});
    var pdir := vm.NewPdir();
    ghost var s2 := vm.Now();
    if pdir == 0 {
      NoDirectoryMade(s, s1, s2, FrameOf(task), FrameOf(kstack));
      return None, Ring.NoDirectory;
    }
    AddBuilt(s, s1, s2, FrameOf(task), FrameOf(kstack), FrameOf(pdir));
    r := AllocStack(vm, s, task, kstack, pdir);
    outcome := if r == None then Ring.NoDirectory else Ring.Forked;
  }

  lemma FewFrames(s: Snap, s1: Snap)
    requires |s1.mem| == NF && s1.kc < NF && s1.ioc < NF && Holds(Grew(s, s1)) && |s.free| < 2
    ensures Holds(TaskMade(s, s1, None, Ring.NoFrames))
  {
  }

  lemma TwoFrames(s: Snap, s1: Snap, task: nat, kstack: nat, unsure: bool)
    requires Holds(TwoTaken(s, s1, task, kstack)) && Inv(s) && (unsure || |s.free| >= Need(s) + 5)
    ensures Holds(Paging.Valid(s1)) && (unsure || |s1.free| >= Need(s1))
  {
  }

  lemma NoDirectoryMade(s: Snap, s1: Snap, s2: Snap, task: nat, kstack: nat)
    requires Holds(TwoTaken(s, s1, task, kstack)) && Holds(Built(s1, s2, None))
    ensures Holds(TaskMade(s, s2, None, Ring.NoDirectory))
  {
    BuiltGrew(s1, s2, None);
    GrewTrans(s, s1, s2);
  }

  /** The task's and the kernel stack's frames; 0 when there are not two. */
  method AllocTwo(vm: AddressSpaces) returns (task: Word, kstack: Word)
    requires vm.Shape() && Holds(Paging.Valid(vm.Now())) && vm.Enough(2)
    modifies vm.pm.mngr, vm`free
    ensures vm.Shape()
    ensures kstack != 0 ==> Holds(TwoTaken(old(vm.Now()), vm.Now(), FrameOf(task), FrameOf(kstack)))
    ensures kstack == 0 ==> |old(vm.free)| < 2 && Holds(Grew(old(vm.Now()), vm.Now()))
  {
    ghost var s, f, g := vm.Now(), 0, 0;
    task, kstack := 0, 0;
    var pa;
    pa, f := TakeFrame(vm);
    if pa == 0 {
      GrewRefl(s);
      return;
    }
    ghost var s1 := vm.Now();
    TakenGrew(s, s1, f);
    task := P2KH(pa);
    pa, g := TakeFrame(vm);
    if pa == 0 {
      return;
    }
    TakeTwo(s, s1, vm.Now(), f, g);
    kstack := P2KH(pa);
  }

  /** The user stack, mapped at its own physical address, and the context. */
  method AllocStack(vm: AddressSpaces, ghost s: Snap, task: Word, kstack: Word, pdir: Word)
    returns (r: Option<NewTask>)
    requires vm.Shape() && FrameOf(pdir) < NF && pdir == Kernel(FrameOf(pdir))
    requires Holds(WithDirectory(s, vm.Now(), FrameOf(task), FrameOf(kstack), FrameOf(pdir)))
    requires vm.high == {} || |s.free| >= Need(s) + 5
    modifies vm.ram, vm.pm.mngr, vm`free, vm`slot
    ensures vm.Shape() && Holds(TaskMade(s, vm.Now(), r, if r == None then Ring.NoDirectory else Ring.Forked))
  {
    ghost var s3 := vm.Now();
    var uesp := MapStack(vm, s, FrameOf(task), FrameOf(kstack), pdir);
    ghost var s4 := vm.Now();
    if uesp == 0 {
      StackFailed(s, s4, FrameOf(task), FrameOf(kstack), FrameOf(pdir));
      return None;
    }
    StackThere(s, s4, FrameOf(task), FrameOf(kstack), FrameOf(pdir), uesp, vm.high == {});
    var pa, ctx := TakeFrame(vm);
    r := if pa == 0 then None else Some(NewTask(task, kstack, pdir, uesp, P2KH(pa)));
    ContextTaken(s, s3, s4, vm.Now(), task, kstack, pdir, uesp, pa, ctx);
  }

  lemma StackFailed(s: Snap, s4: Snap, task: nat, kstack: nat, c: nat)
    requires Holds(StackMade(s, s4, task, kstack, c, 0))
    ensures Holds(TaskMade(s, s4, None, Ring.NoDirectory))
  {
  }

  lemma StackThere(s: Snap, s4: Snap, task: nat, kstack: nat, c: nat, uesp: Word, unsure: bool)
    requires uesp != 0 && Holds(StackMade(s, s4, task, kstack, c, uesp)) && (unsure || |s.free| >= Need(s) + 5)
    ensures Holds(Paging.Valid(s4)) && (unsure || |s4.free| >= 1)
  {
  }

  lemma ContextTaken(s: Snap, s3: Snap, s4: Snap, s5: Snap, task: Word, kstack: Word, pdir: Word, uesp: Word, pa: Word,
                     ctx: nat)
    requires FrameOf(pdir) < NF && pdir == Kernel(FrameOf(pdir)) && uesp != 0
    requires Holds(StackMade(s, s4, FrameOf(task), FrameOf(kstack), FrameOf(pdir), uesp))
    requires Sealed(ByteCleared(s3, s4, uesp))
    requires pa == 0 ==> s5 == s4 && s4.free == {}
    requires pa != 0 ==> ctx == FrameOf(P2KH(pa)) && Holds(Taken(s4, s5, ctx))
    ensures Holds(TaskMade(s, s5, if pa == 0 then None else Some(NewTask(task, kstack, pdir, uesp, P2KH(pa))),
                           if pa == 0 then Ring.NoDirectory else Ring.Forked))
  {
    Unseal(ByteCleared(s3, s4, uesp));
    if pa != 0 {
      AddContext(s, s4, s5, FrameOf(task), FrameOf(kstack), FrameOf(pdir), uesp / 4096, ctx);
    }
  }

  method MapStack(vm: AddressSpaces, ghost s: Snap, ghost task: nat, ghost kstack: nat, pdir: Word)
    returns (uesp: Word)
    requires vm.Shape() && pdir % 4096 == 0 && Holds(WithDirectory(s, vm.Now(), task, kstack, FrameOf(pdir)))
    requires vm.high == {} || |s.free| >= Need(s) + 4
    modifies vm.ram, vm.pm.mngr, vm`free, vm`slot
    ensures vm.Shape() && Holds(StackMade(s, vm.Now(), task, kstack, FrameOf(pdir), uesp))
    ensures uesp != 0 ==> Sealed(ByteCleared(old(vm.Now()), vm.Now(), uesp))
  {
    ghost var s1, c, u := vm.Now(), FrameOf(pdir), 0;
    FramesForStack(s, s1, task, kstack, c, vm.high == {});
    uesp, u := TakeFrame(vm);
    if uesp == 0 {
      NoStack(s, s1, task, kstack, c);
      return;
    }
    ghost var s2 := vm.Now();
    StackReady(s, s1, s2, task, kstack, c, u);
    var rc := MapUser(vm, pdir, uesp, uesp);
    StackResult(s, s1, s2, vm.Now(), task, kstack, c, u, uesp, rc);
    if rc != 0 {
      uesp := 0;
      return;
    }
    ghost var s3 := vm.Now();
    uesp := TopOfStack(vm, uesp, s, task, kstack, c, u);
    ClearedSince(s1, s3, vm.Now(), uesp, u);
  }

  lemma ClearedSince(s1: Snap, s3: Snap, s4: Snap, uesp: Word, u: nat)
    requires Sealed(ByteCleared(s3, s4, uesp)) && uesp / 4096 == u < NF
    requires |s1.mem| == NF && |s3.mem| == NF && s3.mem[u] == s1.mem[u]
    ensures Sealed(ByteCleared(s1, s4, uesp))
  {
    Unseal(ByteCleared(s3, s4, uesp));
  }

  /** uesp += PGSIZE - 20; *((uint8_t *) uesp) = 0 */
  method TopOfStack(vm: AddressSpaces, page: Word, ghost s: Snap, ghost task: nat, ghost kstack: nat, ghost c: nat,
                    ghost u: nat)
    returns (uesp: Word)
    requires vm.Shape() && u < NF && page == 4096 * u
    requires Holds(WithStack(s, vm.Now(), task, kstack, c, u)) && Inv(s) && |s.free| >= Need(s) + 4
    modifies vm.ram
    ensures vm.Shape() && Holds(StackMade(s, vm.Now(), task, kstack, c, uesp))
    ensures uesp / 4096 == u && Sealed(ByteCleared(old(vm.Now()), vm.Now(), uesp))
  {
    StackTop(s, vm.Now(), task, kstack, c, u);
    uesp := page + 4096 - 20;
    ZeroByte(vm, s, uesp, task, kstack, c, u);
  }

  /** *((uint8_t *) uesp) = 0, through the identity mapping of the stack. */
  method ZeroByte(vm: AddressSpaces, ghost s: Snap, uesp: Word, ghost task: nat, ghost kstack: nat, ghost c: nat,
                  ghost u: nat)
    requires vm.Shape() && uesp / 4096 == u < NF && uesp != 0
    requires Holds(StackMade(s, vm.Now(), task, kstack, c, uesp))
    modifies vm.ram
    ensures vm.Shape() && Holds(StackMade(s, vm.Now(), task, kstack, c, uesp))
    ensures uesp / 4096 == u && Sealed(ByteCleared(old(vm.Now()), vm.Now(), uesp))
  {
    ghost var before := vm.Now();
    vm.ram[uesp / 4096] := SetFrameByte(vm.ram[uesp / 4096], uesp % 4096, 0);
    assert ByteCleared(before, vm.Now(), uesp);
    StackWritten(s, before, vm.Now(), task, kstack, c, u);
  }

  // --------------------------------------------------------------- task_fork

  /** What task_fork does to memory. It fails exactly when task_alloc does, and
      then disturbs nothing. Otherwise the child has a complete address space: with
      answer 1 its stack is mapped and it has a copy of the parent's kernel stack,
      with answer 0 the stack could not be mapped. */
  ghost predicate ForkDone(s: Snap, s': Snap, p: nat, fgkstack: nat, n: nat, rc: int, child: Option<NewTask>,
                           outcome: Ring.Outcome) {
    && Paging.Valid(s) && Paging.Valid(s') && -1 <= rc <= 1
    && (rc == -1 <==> |s.free| < Need(s) + 5) && (rc == -1 <==> child == None) && outcome == OutcomeOf(s, rc == 1)
    && (rc == -1 ==> Grew(s, s'))
    && (child.Some? ==>
          && var c, u, k := FrameOf(child.value.pdir), child.value.uesp / 4096, FrameOf(child.value.kstack);
          && u < NF && k < NF
          && ForkedSpace(s, s', p, c, n, if rc == 1 then u else NPAGES)
          && (rc == 1 && fgkstack < NF && IsData(s, fgkstack) ==> s'.mem[k] == s.mem[fgkstack]))
  }

  /** What task_fork needs of memory: the parent's run has n pages, and
      task_copy_vm, which does not check, needs n + 1 frames after task_alloc.
      With free frames above KHEAP (`unsure` is false) there must be enough below. */
  ghost predicate MayFork(s: Snap, p: nat, fgkstack: nat, n: nat, unsure: bool) {
    && Paging.Valid(s) && p in s.dirs && IsRun(s, p, n) && n <= ROOM && fgkstack < NF
    && (unsure || |s.free| >= Need(s) + 7 + n)
    && (n > 0 && |s.free| >= Need(s) + 5 ==> |s.free| >= Need(s) + 6 + n)
  }

  /** The memory half of task_fork */
  method TaskFork(vm: AddressSpaces, fgpdir: Word, fgkstack: Word, ghost n: nat)
    returns (rc: int, child: Option<NewTask>, outcome: Ring.Outcome)
    requires vm.Shape() && vm.CachesSet()
    requires Sealed(MayFork(vm.Now(), FrameOf(fgpdir), FrameOf(fgkstack), n, vm.high == {}))
    modifies vm.ram, vm.pm.mngr, vm`free, vm`slot, vm`dirs
    ensures vm.Shape()
    ensures Sealed(ForkDone(old(vm.Now()), vm.Now(), FrameOf(fgpdir), FrameOf(fgkstack), n, rc, child, outcome))
  {
    ghost var s := vm.Now();
    CanAllocTask(s, FrameOf(fgpdir), FrameOf(fgkstack), n, vm.high == {});
    child, outcome := TaskAlloc(vm);
    ghost var s1 := vm.Now();
    if child == None {
      rc := -1;
      NotForked(s, s1, FrameOf(fgpdir), FrameOf(fgkstack), n, outcome);
      return;
    }
    FramesForCopy(s, s1, FrameOf(fgpdir), FrameOf(fgkstack), n, child.value, outcome, vm.high == {});
    rc := ForkAddressSpace(vm, fgpdir, fgkstack, child.value, s, n);
    outcome := if rc == 1 then Ring.Forked else Ring.NoStack;
  }

  lemma NotForked(s: Snap, s1: Snap, p: nat, fgkstack: nat, n: nat, outcome: Ring.Outcome)
    requires Holds(TaskMade(s, s1, None, outcome))
    ensures Sealed(ForkDone(s, s1, p, fgkstack, n, -1, None, outcome))
  {
  }

  lemma CanAllocTask(s: Snap, p: nat, fgkstack: nat, n: nat, unsure: bool)
    requires Sealed(MayFork(s, p, fgkstack, n, unsure))
    ensures Holds(Paging.Valid(s)) && (unsure || |s.free| >= Need(s) + 5)
  {
    Unseal(MayFork(s, p, fgkstack, n, unsure));
  }

  lemma FramesForCopy(s: Snap, s1: Snap, p: nat, fgkstack: nat, n: nat, t: NewTask, outcome: Ring.Outcome,
                      unsure: bool)
    requires Sealed(MayFork(s, p, fgkstack, n, unsure)) && Holds(TaskMade(s, s1, Some(t), outcome))
    ensures Inv(s) && |s.free| >= Need(s) + 5 && p in s.dirs && Holds(IsRun(s, p, n)) && n <= ROOM && fgkstack < NF
    ensures Holds(IsNew(s, s1, t)) && (n > 0 ==> |s1.free| >= n + 1) && (unsure || |s1.free| >= n + 2)
  {
    Unseal(MayFork(s, p, fgkstack, n, unsure));
  }

  /** task_fork after task_alloc. */
  method ForkAddressSpace(vm: AddressSpaces, fgpdir: Word, fgkstack: Word, t: NewTask, ghost s: Snap, ghost n: nat)
    returns (rc: int)
    requires vm.Shape() && Holds(IsNew(s, vm.Now(), t)) && |s.free| >= Need(s) + 5
    requires FrameOf(fgpdir) in s.dirs && Holds(IsRun(s, FrameOf(fgpdir), n)) && n <= ROOM && FrameOf(fgkstack) < NF
    requires (n > 0 ==> |vm.free| >= n + 1) && vm.Enough(n + 2)
    modifies vm.ram, vm.pm.mngr, vm`free, vm`slot
    ensures vm.Shape()
    ensures Sealed(ForkDone(s, vm.Now(), FrameOf(fgpdir), FrameOf(fgkstack), n, rc, Some(t),
                           if rc == 1 then Ring.Forked else Ring.NoStack))
  {
    ghost var s1, p, c, u := vm.Now(), FrameOf(fgpdir), FrameOf(t.pdir), t.uesp / 4096;
    NewParts(s, s1, t, p);
    ghost var s2, table, fs := CopyAddressSpace(vm, fgpdir, t.pdir, s, n);
    ghost var s3 := vm.Now();
    rc := MapUser(vm, t.pdir, t.uesp, t.uesp);
    ghost var s4 := vm.Now();
    ForkResult(s, s1, s2, s3, s4, p, c, n, table, fs, u, t.uesp, rc);
    if rc != 0 {
      rc := 0;
    } else {
      CopyKernelStack(vm, FrameOf(t.kstack), FrameOf(fgkstack), s, s1, p, c, n, u);
      rc := 1;
    }
    AllForked(s, s1, vm.Now(), p, FrameOf(fgkstack), n, rc, t);
  }

  lemma NewParts(s: Snap, s1: Snap, t: NewTask, p: nat)
    requires Holds(IsNew(s, s1, t)) && p in s.dirs
    ensures Holds(Grew(s, s1)) && t.uesp / 4096 < NF && t.pdir % 4096 == 0
    ensures t.uesp / 4096 in s.free && IsData(s1, t.uesp / 4096)
    ensures FrameOf(t.pdir) in s1.dirs && FrameOf(t.pdir) !in s.dirs && p != FrameOf(t.pdir)
    ensures FrameOf(t.kstack) in s.free && FrameOf(t.kstack) !in s1.free && IsData(s1, FrameOf(t.kstack))
  {
  }

  lemma AllForked(s: Snap, s1: Snap, s': Snap, p: nat, fgkstack: nat, n: nat, rc: int, t: NewTask)
    requires Holds(IsNew(s, s1, t)) && |s.free| >= Need(s) + 5 && (rc == 0 || rc == 1)
    requires Holds(ForkedSpace(s, s', p, FrameOf(t.pdir), n, if rc == 1 then t.uesp / 4096 else NPAGES))
    requires rc == 1 && fgkstack < NF && IsData(s, fgkstack) ==>
      |s'.mem| == NF && FrameOf(t.kstack) < NF && s'.mem[FrameOf(t.kstack)] == s.mem[fgkstack]
    ensures Sealed(ForkDone(s, s', p, fgkstack, n, rc, Some(t), if rc == 1 then Ring.Forked else Ring.NoStack))
  {
  }

  /** memcpy of the directory, then task_copy_vm. */
  method CopyAddressSpace(vm: AddressSpaces, fgpdir: Word, npdir: Word, ghost s: Snap, ghost n: nat)
    returns (ghost s2: Snap, ghost t: nat, ghost fs: seq<nat>)
    requires vm.Shape() && Holds(Grew(s, vm.Now())) && FrameOf(fgpdir) in s.dirs
    requires FrameOf(npdir) in vm.dirs && FrameOf(npdir) != FrameOf(fgpdir)
    requires Holds(IsRun(s, FrameOf(fgpdir), n)) && n <= ROOM && (n > 0 ==> |vm.free| >= n + 1) && vm.Enough(n + 2)
    modifies vm.ram, vm.pm.mngr, vm`free, vm`slot
    ensures vm.Shape() && vm.Enough(1) && Holds(DirCopied(old(vm.Now()), s2, FrameOf(fgpdir), FrameOf(npdir)))
    ensures Holds(Copied(s2, vm.Now(), FrameOf(fgpdir), FrameOf(npdir), n, n, t, fs))
    ensures Holds(Inv(vm.Now()))
  {
    ghost var s1 := vm.Now();
    vm.ram[FrameOf(npdir)] := vm.ram[FrameOf(fgpdir)];
    s2 := vm.Now();
    CopyReady(s, s1, s2, FrameOf(fgpdir), FrameOf(npdir), n);
    TaskCopyVm(vm, fgpdir, npdir, n);
    t, fs := WholeRun(s2, FrameOf(fgpdir), FrameOf(npdir), n);
    CopiedReads(s2, vm.Now(), FrameOf(fgpdir), FrameOf(npdir), n, n, t, fs);
  }

  lemma CopyReady(s: Snap, s1: Snap, s2: Snap, p: nat, c: nat, n: nat)
    requires Holds(Grew(s, s1)) && p in s.dirs && c in s1.dirs && p != c && Holds(IsRun(s, p, n))
    requires s2 == s1.(mem := s1.mem[c := s1.mem[p]])
    ensures MayCopy(s2, p, c, n) && Holds(DirCopied(s1, s2, p, c))
  {
    RunAtCopy(s, s1, s2, p, c, n);
  }

  /** memcpy of the kernel stack. */
  method CopyKernelStack(vm: AddressSpaces, to: nat, from: nat, ghost s: Snap, ghost s1: Snap, ghost p: nat,
                         ghost c: nat, ghost n: nat, ghost u: nat)
    requires vm.Shape() && Holds(ForkedSpace(s, vm.Now(), p, c, n, u)) && Holds(CopiesNew(s1, vm.Now(), c, n, u))
    requires u < NF && from < NF && to < NF && to in s.free && to !in s1.free && IsData(s1, to)
    modifies vm.ram
    ensures vm.Shape() && Holds(ForkedSpace(s, vm.Now(), p, c, n, u))
    ensures IsData(s, from) ==> |vm.ram[..]| == NF && vm.ram[..][to] == s.mem[from]
  {
    ghost var before := vm.Now();
    DataStill(s1, before, c, n, u, to);
    vm.ram[to] := vm.ram[from];
    KernelStackForked(s, s1, before, vm.Now(), p, c, n, u, to, from);
  }

  lemma DataStill(s1: Snap, s4: Snap, c: nat, n: nat, u: nat, f: nat)
    requires Holds(CopiesNew(s1, s4, c, n, u)) && IsData(s1, f)
    ensures IsData(s4, f)
  {
  }
}
