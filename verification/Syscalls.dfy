/** The tasks' ring and their memory together: task_add and task_fork (task.c),
    and sys_exec (exec.c). */
module Syscalls {
  import opened Wrappers
  import opened Words
  import opened Paging
  import opened Mapping
  import opened Directories
  import opened Bytes
  import opened Loading
  import opened Forking
  import opened TaskMemory
  import opened UserMaps
  import opened Vm
  import opened Elf
  import opened ElfImage
  import Ring
  import Scheduling
  import Tasks
  import Fork

  /** What a fork with the given outcome does to the ring; r is its answer, and
      frames are those of the new task. */
  ghost predicate RingDone(k: Ring.Sched<Tasks.Task>, k': Ring.Sched<Tasks.Task>, child: Tasks.Task?,
                           frames: Option<Fork.NewTask>, outcome: Ring.Outcome, r: int) {
    && Ring.Closed(k) && k.head.Some? && r == Scheduling.ForkAnswer(k, outcome)
    && (child == null <==> outcome == Ring.NoFrames || outcome == Ring.NoDirectory)
    && (child == null ==> k' == if outcome == Ring.NoFrames then k else k.(tid := (k.tid + 1) % 256))
    && (child != null ==> child !in k.nodes && k' == Scheduling.ForkOf(k, child, outcome))
    && (child != null && frames.Some? ==> Owns(child, frames.value))
  }

  /** The task's record has its frames. */
  ghost predicate Owns(t: Tasks.Task, frames: Fork.NewTask) {
    t.pdir == frames.pdir && t.kstack == frames.kstack
  }

  /** task_fork: memory decides how far it gets, and that `outcome` decides what
      happens to the ring, the tids and is_running. */
  method TaskFork(vm: AddressSpaces, kernel: Tasks.Kernel, ghost n: nat)
    returns (r: int, child: Tasks.Task?, rc: int, frames: Option<Fork.NewTask>, outcome: Ring.Outcome)
    requires kernel.Valid() && kernel.htask != null && kernel.fgtask != null
    requires vm.Shape() && vm.CachesSet()
    requires Sealed(MayForkTask(vm.Now(), kernel.fgtask, n, vm.high == {}))
    modifies vm.ram, vm.pm.mngr, vm`free, vm`slot, vm`dirs
    modifies kernel`htask, kernel`tasks, kernel`tid, kernel.tasks, kernel.isRunning
    ensures vm.Shape()
    ensures Sealed(ForkTaskDone(old(vm.Now()), vm.Now(), kernel.fgtask, n, rc, frames, outcome))
    ensures Sealed(RingDone(old(kernel.Now()), kernel.Now(), child, frames, outcome, r))
  {
    ghost var t, s, k := kernel.fgtask, vm.Now(), kernel.Now();
    rc, frames, outcome := ForkMemory(vm, kernel, kernel.fgtask, n);
    ghost var s' := vm.Now();
    assert Sealed(ForkTaskDone(s, s', t, n, rc, frames, outcome)) && kernel.Now() == k;
    r, child := ForkRing(vm, kernel, outcome, frames);
    assert Sealed(RingDone(k, kernel.Now(), child, frames, outcome, r)) && vm.Now() == s' && kernel.fgtask == t;
  }

  /** What task_fork needs of memory, for the foreground task t */
  ghost predicate MayForkTask(s: Snap, t: Tasks.Task, n: nat, unsure: bool) {
    Fork.MayFork(s, FrameOf(t.pdir), FrameOf(t.kstack), n, unsure)
  }

  /** The fork of task t in memory */
  ghost predicate ForkTaskDone(s: Snap, s': Snap, t: Tasks.Task, n: nat, rc: int, frames: Option<Fork.NewTask>,
                               outcome: Ring.Outcome) {
    Fork.ForkDone(s, s', FrameOf(t.pdir), FrameOf(t.kstack), n, rc, frames, outcome)
  }

  lemma OpenFork(s: Snap, t: Tasks.Task, n: nat, unsure: bool)
    requires Sealed(MayForkTask(s, t, n, unsure))
    ensures Sealed(Fork.MayFork(s, FrameOf(t.pdir), FrameOf(t.kstack), n, unsure))
  {
    Unseal(MayForkTask(s, t, n, unsure));
  }

  lemma CloseFork(s: Snap, s': Snap, t: Tasks.Task, n: nat, rc: int, frames: Option<Fork.NewTask>,
                  outcome: Ring.Outcome)
    requires Sealed(Fork.ForkDone(s, s', FrameOf(t.pdir), FrameOf(t.kstack), n, rc, frames, outcome))
    ensures Sealed(ForkTaskDone(s, s', t, n, rc, frames, outcome))
  {
    Unseal(Fork.ForkDone(s, s', FrameOf(t.pdir), FrameOf(t.kstack), n, rc, frames, outcome));
  }

  /** Memory's part, which does not touch the ring */
  method ForkMemory(vm: AddressSpaces, ghost kernel: Tasks.Kernel, t: Tasks.Task, ghost n: nat)
    returns (rc: int, frames: Option<Fork.NewTask>, outcome: Ring.Outcome)
    requires vm.Shape() && vm.CachesSet()
    requires Sealed(MayForkTask(vm.Now(), t, n, vm.high == {}))
    modifies vm.ram, vm.pm.mngr, vm`free, vm`slot, vm`dirs
    ensures vm.Shape() && unchanged(kernel) && unchanged(kernel.tasks) && unchanged(kernel.isRunning)
    ensures kernel.Now() == old(kernel.Now())
    ensures Sealed(ForkTaskDone(old(vm.Now()), vm.Now(), t, n, rc, frames, outcome))
  {
    ghost var s := vm.Now();
    OpenFork(s, t, n, vm.high == {});
    rc, frames, outcome := Fork.TaskFork(vm, t.pdir, t.kstack, n);
    CloseFork(s, vm.Now(), t, n, rc, frames, outcome);
  }

  /** The ring's part, which does not touch memory */
  method ForkRing(ghost vm: AddressSpaces, kernel: Tasks.Kernel, outcome: Ring.Outcome, frames: Option<Fork.NewTask>)
    returns (r: int, child: Tasks.Task?)
    requires kernel.Valid() && kernel.htask != null && vm.Shape()
    modifies kernel`htask, kernel`tasks, kernel`tid, kernel.tasks, kernel.isRunning
    ensures vm.Shape() && vm.Now() == old(vm.Now())
    ensures Sealed(RingDone(old(kernel.Now()), kernel.Now(), child, frames, outcome, r))
  {
    if frames.Some? {
      r, child := kernel.TaskFork(outcome, frames.value.pdir, frames.value.kstack);
    } else {
      r, child := kernel.TaskFork(outcome, 0, 0);
    }
  }

  /** task_fork by the number of free frames alone: with less than two nothing
      happens; with too few for the rest of task_alloc the tid is used up; else the
      child heads the ring, and it is flagged and its tid returned exactly if its
      stack could be mapped. */
  lemma ForkByFrames(s: Snap, s': Snap, t: Tasks.Task, n: nat, rc: int, frames: Option<Fork.NewTask>,
                     outcome: Ring.Outcome, k: Ring.Sched<Tasks.Task>, k': Ring.Sched<Tasks.Task>, child: Tasks.Task?,
                     r: int)
    requires Holds(ForkTaskDone(s, s', t, n, rc, frames, outcome)) && Holds(RingDone(k, k', child, frames, outcome, r))
    ensures |s.mem| == NF && s.kc < NF && s.ioc < NF && k.tid < |k.running|
    ensures |s.free| < 2 ==> r == -1 && k' == k
    ensures 2 <= |s.free| < Need(s) + 5 ==> r == -1 && k' == k.(tid := (k.tid + 1) % 256)
    ensures |s.free| >= Need(s) + 5 ==>
      && child != null && child !in k.nodes && k'.head == Some(child) && k'.tid == (k.tid + 1) % 256
      && child in k'.nodes && k'.nodes[child].tid == k.tid && k'.nodes[child].state == Ring.Runnable
      && (if rc == 1 then r == k.tid && k'.running == k.running[k.tid := true] else r == 0 && k'.running == k.running)
  {
    assert Ring.At(k.nodes, k.head.value);
  }

  // ----------------------------------------------------------------- task_add

  /** task_add for a valid image in memory: s1 is the state after task_alloc, s2
      after the loader. */
  ghost predicate AddDone(s: Snap, s1: Snap, s2: Snap, s3: Snap, c: seq<Byte>, r: Option<Fork.NewTask>, ok: bool,
                          outcome: Ring.Outcome) {
    && SinglePage(c) && Fork.TaskMade(s, s1, r, outcome)
    && (r == None ==> !ok && s3 == s2 == s1)
    && (r.Some? ==> Loaded(s1, s2, s3, r.value, c, ok))
  }

  ghost predicate Loaded(s1: Snap, s2: Snap, s3: Snap, t: Fork.NewTask, c: seq<Byte>, ok: bool)
    requires SinglePage(c)
  {
    && (ok ==> LoadState(s1, s2, FrameOf(t.pdir), c, PhNum(c)) && EntryStored(s2, s3, t, EntryOf(c)))
    && (!ok ==> LoadFailed(s1, s2, FrameOf(t.pdir), c) && s3 == s2)
  }

  /** *((uint32_t *) (uesp + 4)) = entry, through the new task's directory */
  ghost predicate EntryStored(s: Snap, s': Snap, t: Fork.NewTask, entry: Word) {
    && |s.mem| == NF && FrameOf(t.pdir) < NF && t.uesp / 4096 < NF
    && Walk(s.mem, FrameOf(t.pdir), t.uesp / 4096).Some?
    && var f := Target(Walk(s.mem, FrameOf(t.pdir), t.uesp / 4096).value);
    && IsData(s, f) && s' == s.(mem := s.mem[f := s.mem[f][1020 := entry]])
  }

  /** What task_add does to the ring: the new task is linked whether or not its
      image can be loaded. */
  ghost predicate Linked(k: Ring.Sched<Tasks.Task>, k': Ring.Sched<Tasks.Task>, t: Tasks.Task?,
                         frames: Option<Fork.NewTask>, outcome: Ring.Outcome) {
    && (t == null <==> frames == None)
    && (t == null ==> k' == if outcome == Ring.NoFrames then k else k.(tid := (k.tid + 1) % 256))
    && (t != null ==> Ring.Closed(k) && t !in k.nodes && t.tid == k.tid && k' == Scheduling.LinkOf(k, t)
                      && Owns(t, frames.value))
  }

  ghost predicate MayAdd(s: Snap, c: seq<Byte>, unsure: bool) {
    Paging.Valid(s) && SinglePage(c) && (unsure || |s.free| >= Need(s) + 5 + 2 * PhNum(c))
  }

  /** task_add: null, or the task that has been linked and loaded. */
  method TaskAdd(vm: AddressSpaces, kernel: Tasks.Kernel, c: seq<Byte>)
    returns (ntask: Tasks.Task?, r: Option<Fork.NewTask>, outcome: Ring.Outcome, ghost linked: Tasks.Task?,
             ghost s1: Snap, ghost s2: Snap)
    requires 52 <= |c| && vm.Shape() && vm.CachesSet() && kernel.Valid()
    requires IsValid(c) ==> Sealed(MayAdd(vm.Now(), c, vm.high == {}))
    modifies vm.ram, vm.pm.mngr, vm`free, vm`slot, vm`dirs
    modifies kernel`htask, kernel`tasks, kernel`tid, kernel.tasks
    ensures vm.Shape() && (ntask == null || ntask == linked)
    ensures !IsValid(c) ==> ntask == null && vm.Now() == old(vm.Now()) && kernel.Now() == old(kernel.Now())
    ensures IsValid(c) ==> Sealed(AddDone(old(vm.Now()), s1, s2, vm.Now(), c, r, ntask != null, outcome))
    ensures IsValid(c) ==> Sealed(Linked(old(kernel.Now()), kernel.Now(), linked, r, outcome))
  {
    ghost var s, k := vm.Now(), kernel.Now();
    r, outcome, ntask, linked, s1, s2 := None, Ring.NoFrames, null, null, s, s;
    if !IsValid(c) {
      return;
    }
    r, outcome := AddMemory(vm, kernel, c);
    s1 := vm.Now();
    assert kernel.Now() == k && kernel.Valid();
    var t := AddRing(vm, kernel, outcome, r, s, c);
    linked := t;
    ghost var k' := kernel.Now();
    assert Sealed(Linked(k, k', t, r, outcome)) && vm.Now() == s1;
    if t == null {
      NotAdded(s, s1, c, outcome, vm.high == {});
      s2 := s1;
      return;
    }
    var ok;
    ok, s2 := LoadNew(vm, kernel, c, r.value, s, outcome);
    assert kernel.Now() == k';
    if ok {
      ntask := t;
    }
  }

  /** Memory's part of task_alloc, which does not touch the ring */
  method AddMemory(vm: AddressSpaces, ghost kernel: Tasks.Kernel, c: seq<Byte>)
    returns (r: Option<Fork.NewTask>, outcome: Ring.Outcome)
    requires vm.Shape() && vm.CachesSet() && Sealed(MayAdd(vm.Now(), c, vm.high == {}))
    modifies vm.ram, vm.pm.mngr, vm`free, vm`slot, vm`dirs
    ensures vm.Shape() && unchanged(kernel) && unchanged(kernel.tasks) && unchanged(kernel.isRunning)
    ensures kernel.Now() == old(kernel.Now())
    ensures Sealed(Allocates(old(vm.Now()), vm.Now(), c, r, outcome, vm.high == {}))
  {
    r, outcome := AddFrames(vm, c);
  }

  method AddFrames(vm: AddressSpaces, c: seq<Byte>) returns (r: Option<Fork.NewTask>, outcome: Ring.Outcome)
    requires vm.Shape() && vm.CachesSet() && Sealed(MayAdd(vm.Now(), c, vm.high == {}))
    modifies vm.ram, vm.pm.mngr, vm`free, vm`slot, vm`dirs
    ensures vm.Shape() && Sealed(Allocates(old(vm.Now()), vm.Now(), c, r, outcome, vm.high == {}))
  {
    ghost var s := vm.Now();
    CanAlloc(s, c, vm.high == {});
    r, outcome := Fork.TaskAlloc(vm);
    AllocDone(s, vm.Now(), c, r, outcome, vm.high == {});
  }

  ghost predicate Allocates(s: Snap, s1: Snap, c: seq<Byte>, r: Option<Fork.NewTask>, outcome: Ring.Outcome,
                            unsure: bool) {
    MayAdd(s, c, unsure) && Fork.TaskMade(s, s1, r, outcome)
  }

  lemma CanAlloc(s: Snap, c: seq<Byte>, unsure: bool)
    requires Sealed(MayAdd(s, c, unsure))
    ensures Holds(Paging.Valid(s)) && (unsure || |s.free| >= Need(s) + 5)
  {
    Unseal(MayAdd(s, c, unsure));
  }

  lemma AllocDone(s: Snap, s1: Snap, c: seq<Byte>, r: Option<Fork.NewTask>, outcome: Ring.Outcome, unsure: bool)
    requires Sealed(MayAdd(s, c, unsure)) && Holds(Fork.TaskMade(s, s1, r, outcome))
    ensures Sealed(Allocates(s, s1, c, r, outcome, unsure))
  {
    Unseal(MayAdd(s, c, unsure));
  }

  /** The ring's part of task_alloc */
  method AddRing(ghost vm: AddressSpaces, kernel: Tasks.Kernel, outcome: Ring.Outcome, r: Option<Fork.NewTask>,
                 ghost s: Snap, ghost c: seq<Byte>)
    returns (t: Tasks.Task?)
    requires vm.Shape() && kernel.Valid()
    requires Sealed(Allocates(s, vm.Now(), c, r, outcome, vm.high == {}))
    modifies kernel`htask, kernel`tasks, kernel`tid, kernel.tasks
    ensures vm.Shape() && vm.Now() == old(vm.Now()) && (t == null <==> r == None)
    ensures Sealed(Linked(old(kernel.Now()), kernel.Now(), t, r, outcome))
  {
    OutcomeFits(s, vm.Now(), c, r, outcome, vm.high == {});
    t := LinkNew(kernel, outcome, r);
  }

  method LinkNew(kernel: Tasks.Kernel, outcome: Ring.Outcome, r: Option<Fork.NewTask>) returns (t: Tasks.Task?)
    requires kernel.Valid()
    requires if r.Some? then outcome == Ring.Forked else outcome == Ring.NoFrames || outcome == Ring.NoDirectory
    modifies kernel`htask, kernel`tasks, kernel`tid, kernel.tasks
    ensures (t == null <==> r == None) && Sealed(Linked(old(kernel.Now()), kernel.Now(), t, r, outcome))
  {
    if r.Some? {
      t := kernel.TaskAlloc(outcome, r.value.pdir, r.value.kstack);
    } else {
      t := kernel.TaskAlloc(outcome, 0, 0);
    }
  }

  lemma OutcomeFits(s: Snap, s1: Snap, c: seq<Byte>, r: Option<Fork.NewTask>, outcome: Ring.Outcome, unsure: bool)
    requires Sealed(Allocates(s, s1, c, r, outcome, unsure))
    ensures outcome == if r.Some? then Ring.Forked else if |s.free| < 2 then Ring.NoFrames else Ring.NoDirectory
  {
    Unseal(Allocates(s, s1, c, r, outcome, unsure));
  }

  lemma NotAdded(s: Snap, s1: Snap, c: seq<Byte>, outcome: Ring.Outcome, unsure: bool)
    requires Sealed(Allocates(s, s1, c, None, outcome, unsure))
    ensures Sealed(AddDone(s, s1, s1, s1, c, None, false, outcome))
  {
    Unseal(Allocates(s, s1, c, None, outcome, unsure));
  }

  /** The image and its entry address; the ring is not touched. */
  method LoadNew(vm: AddressSpaces, ghost kernel: Tasks.Kernel, c: seq<Byte>, t: Fork.NewTask, ghost s: Snap,
                 ghost outcome: Ring.Outcome)
    returns (ok: bool, ghost s2: Snap)
    requires vm.Shape() && Sealed(Allocates(s, vm.Now(), c, Some(t), outcome, vm.high == {}))
    modifies vm.ram, vm.pm.mngr, vm`free, vm`slot
    ensures vm.Shape() && kernel.Now() == old(kernel.Now())
    ensures Sealed(AddDone(s, old(vm.Now()), s2, vm.Now(), c, Some(t), ok, outcome))
  {
    ok, s2 := LoadImage(vm, c, t, s, outcome);
  }

  method LoadImage(vm: AddressSpaces, c: seq<Byte>, t: Fork.NewTask, ghost s: Snap, ghost outcome: Ring.Outcome)
    returns (ok: bool, ghost s2: Snap)
    requires vm.Shape() && Sealed(Allocates(s, vm.Now(), c, Some(t), outcome, vm.high == {}))
    modifies vm.ram, vm.pm.mngr, vm`free, vm`slot
    ensures vm.Shape() && Sealed(AddDone(s, old(vm.Now()), s2, vm.Now(), c, Some(t), ok, outcome))
  {
    ghost var s1 := vm.Now();
    CanLoad(s, s1, c, t, outcome, vm.high == {});
    var rc := MapSections(vm, t.pdir, c);
    ok, s2 := rc == 0, vm.Now();
    if ok {
      StackStays(s, s1, s2, c, t, outcome, vm.high == {});
      StoreEntry(vm, t, EntryOf(c));
    }
    LoadDone(s, s1, s2, vm.Now(), c, t, outcome, ok, vm.high == {});
  }

  lemma CanLoad(s: Snap, s1: Snap, c: seq<Byte>, t: Fork.NewTask, outcome: Ring.Outcome, unsure: bool)
    requires Sealed(Allocates(s, s1, c, Some(t), outcome, unsure))
    ensures Holds(Paging.Valid(s1)) && SinglePage(c) && (unsure || |s1.free| >= 2 * PhNum(c))
    ensures t.pdir % 4096 == 0 && FrameOf(t.pdir) in s1.dirs
  {
    Unseal(Allocates(s, s1, c, Some(t), outcome, unsure));
  }

  /** The stack's page is mapped to data, by task_alloc or by the image. */
  lemma StackStays(s: Snap, s1: Snap, s2: Snap, c: seq<Byte>, t: Fork.NewTask, outcome: Ring.Outcome, unsure: bool)
    requires Sealed(Allocates(s, s1, c, Some(t), outcome, unsure))
    requires SinglePage(c) && Holds(LoadState(s1, s2, FrameOf(t.pdir), c, PhNum(c)))
    ensures Inv(s2) && FrameOf(t.pdir) in s2.dirs && StackMapped(s2, t)
  {
    Unseal(Allocates(s, s1, c, Some(t), outcome, unsure));
    LoadStateOldOrFresh(s1, s2, FrameOf(t.pdir), c, PhNum(c));
    assert Walk(s1.mem, FrameOf(t.pdir), t.uesp / 4096) == Some(StackEntry(t.uesp / 4096));
    assert IsData(s1, t.uesp / 4096);
  }

  ghost predicate StackMapped(s: Snap, t: Fork.NewTask) {
    && |s.mem| == NF && FrameOf(t.pdir) < NF && t.uesp / 4096 < NF && t.uesp % 4096 == 4076
    && Walk(s.mem, FrameOf(t.pdir), t.uesp / 4096).Some?
    && IsData(s, Target(Walk(s.mem, FrameOf(t.pdir), t.uesp / 4096).value))
  }

  /** The store goes where the walk of the new directory leads. */
  method StoreEntry(vm: AddressSpaces, t: Fork.NewTask, entry: Word)
    requires vm.Shape() && Inv(vm.Now()) && FrameOf(t.pdir) in vm.dirs && StackMapped(vm.Now(), t)
    modifies vm.ram
    ensures vm.Shape() && Holds(EntryStored(old(vm.Now()), vm.Now(), t, entry))
  {
    var e, tentry := Fork.WalkByHand(vm, t.pdir, t.uesp);
    vm.SetWord(Target(tentry), 1020, entry);
  }

  lemma LoadDone(s: Snap, s1: Snap, s2: Snap, s3: Snap, c: seq<Byte>, t: Fork.NewTask, outcome: Ring.Outcome, ok: bool,
                 unsure: bool)
    requires Sealed(Allocates(s, s1, c, Some(t), outcome, unsure)) && SinglePage(c)
    requires ok ==> Holds(LoadState(s1, s2, FrameOf(t.pdir), c, PhNum(c))) && Holds(EntryStored(s2, s3, t, EntryOf(c)))
    requires !ok ==> Holds(LoadFailed(s1, s2, FrameOf(t.pdir), c)) && s3 == s2
    ensures Sealed(AddDone(s, s1, s2, s3, c, Some(t), ok, outcome))
  {
    Unseal(Allocates(s, s1, c, Some(t), outcome, unsure));
  }

  // ------------------------------------------------- programs: load, fork, exec

  /** The image covers the n pages from that of 0x08048000, and not the next one. */
  ghost predicate LoadsRun(c: seq<Byte>, n: nat)
    requires SinglePage(c)
  {
    n <= ROOM && !LoadsPage(c, RUN + n) && forall q :: RUN <= q < RUN + n ==> LoadsPage(c, q)
  }

  lemma LoadedPage(s0: Snap, s: Snap, d: nat, c: seq<Byte>, q: nat)
    requires SinglePage(c) && Holds(LoadState(s0, s, d, c, PhNum(c))) && LoadsPage(c, q)
    ensures |s.mem| == NF && d < NF && q < NPAGES && FreshAt(s0, s, d, q)
  {
    assert !Untouched(c, PhNum(c), q);
  }

  /** What the loader leaves is what task_copy_vm copies: such an image
      becomes a run. */
  lemma LoadedRun(s0: Snap, s: Snap, d: nat, c: seq<Byte>, n: nat)
    requires SinglePage(c) && Holds(LoadState(s0, s, d, c, PhNum(c))) && LoadsRun(c, n)
    requires |s0.mem| == NF && d < NF && Walk(s0.mem, d, RUN + n) == None
    ensures Holds(IsRun(s, d, n))
  {
    forall k | 0 <= k < n ensures RunPage(s, d, k) {
      assert LoadsPage(c, RUN + k);
      LoadedPage(s0, s, d, c, RUN + k);
    }
    assert Untouched(c, PhNum(c), RUN + n);
  }

  /** So a task that task_add has loaded can be forked, unless its stack happens
      to be mapped right behind its image. */
  lemma AddedTaskRuns(s: Snap, s1: Snap, s2: Snap, s3: Snap, c: seq<Byte>, t: Fork.NewTask, n: nat)
    requires Holds(AddDone(s, s1, s2, s3, c, Some(t), true, Ring.Forked)) && LoadsRun(c, n)
    requires t.uesp / 4096 != RUN + n
    ensures Holds(IsRun(s3, FrameOf(t.pdir), n)) && FrameOf(t.pdir) in s3.dirs
  {
    assert BootWalk(RUN + n) == None;
    LoadedRun(s1, s2, FrameOf(t.pdir), c, n);
    StoredKeeps(s2, s3, t, EntryOf(c));
    forall k | 0 <= k < n ensures RunPage(s3, FrameOf(t.pdir), k) {
      assert RunPage(s2, FrameOf(t.pdir), k);
    }
  }

  /** A task that has been added finds the entry address of its image right above
      the top of its stack. */
  lemma EntryRead(s: Snap, s1: Snap, s2: Snap, s3: Snap, c: seq<Byte>, h: Ehdr, ps: seq<Phdr>, t: Fork.NewTask, j: nat)
    requires IsImage(c, h, ps) && Holds(AddDone(s, s1, s2, s3, c, Some(t), true, Ring.Forked)) && j < 4
    ensures |s3.mem| == NF && FrameOf(t.pdir) < NF && t.uesp + 4 + j < 0x1_0000_0000
    ensures ReadVirtual(s3.mem, FrameOf(t.pdir), t.uesp + 4 + j) == Some(Full(h.entry)[j])
  {
    HeaderReads(c, h, ps);
    StoredRead(s2, s3, t, EntryOf(c), j);
  }

  lemma StoredRead(s: Snap, s': Snap, t: Fork.NewTask, entry: Word, j: nat)
    requires Holds(Paging.Valid(s)) && Holds(EntryStored(s, s', t, entry)) && j < 4
    requires FrameOf(t.pdir) in s.dirs && t.uesp % 4096 == 4076
    ensures |s'.mem| == NF && FrameOf(t.pdir) < NF && t.uesp + 4 + j < 0x1_0000_0000
    ensures ReadVirtual(s'.mem, FrameOf(t.pdir), t.uesp + 4 + j) == Some(Full(entry)[j])
  {
    StoredKeeps(s, s', t, entry);
    AboveTop(t.uesp, j);
    WordBytes(entry, j);
    assert Walk(s'.mem, FrameOf(t.pdir), t.uesp / 4096) == Walk(s.mem, FrameOf(t.pdir), t.uesp / 4096);
  }

  lemma AboveTop(uesp: Word, j: nat)
    requires uesp % 4096 == 4076 && uesp / 4096 < NF && j < 4
    ensures uesp + 4 + j < 0x1_0000_0000 && Page(uesp + 4 + j) == uesp / 4096
    ensures (uesp + 4 + j) % 4096 / 4 == 1020 && (uesp + 4 + j) % 4096 % 4 == j
  {
    assert uesp == uesp / 4096 * 4096 + 4076;
  }

  lemma WordBytes(w: Word, j: nat)
    requires j < 4
    ensures ByteOf(w, j) == Full(w)[j]
  {
    assert ByteOf(w, 3) == ByteOf(w / 256, 2) == ByteOf(w / 256 / 256, 1) == ByteOf(w / 256 / 256 / 256, 0);
    assert ByteOf(w, 2) == ByteOf(w / 256, 1) == ByteOf(w / 256 / 256, 0);
    assert ByteOf(w, 1) == ByteOf(w / 256, 0);
  }

  /** Storing the entry address changes no translation and no role. */
  lemma StoredKeeps(s: Snap, s': Snap, t: Fork.NewTask, entry: Word)
    requires Holds(Paging.Valid(s)) && Holds(EntryStored(s, s', t, entry))
    ensures Holds(Paging.Valid(s')) && s'.dirs == s.dirs && s'.free == s.free
    ensures forall g: nat :: IsData(s, g) ==> IsData(s', g)
    ensures forall x, p :: x in s.dirs && 0 <= p < NPAGES ==> Walk(s'.mem, x, p) == Walk(s.mem, x, p)
  {
    var f := Target(Walk(s.mem, FrameOf(t.pdir), t.uesp / 4096).value);
    WrittenKeeps(s, s', f);
  }

  /** Address va is mapped to data in directory d. */
  ghost predicate MapsData(s: Snap, d: nat, va: Word) {
    && |s.mem| == NF && d < NF && Walk(s.mem, d, Page(va)).Some?
    && IsData(s, Target(Walk(s.mem, d, Page(va)).value))
  }

  /** *va = b, through directory d */
  ghost predicate ByteStored(s: Snap, s': Snap, d: nat, va: Word, b: Byte)
    requires MapsData(s, d, va)
  {
    var f := Target(Walk(s.mem, d, Page(va)).value);
    s' == s.(mem := s.mem[f := SetFrameByte(s.mem[f], va % 4096, b)])
  }

  /** The three ends of sys_exec for an image c, a directory d and the address of
      the byte it patches; s1 is the state after the loader. */
  ghost predicate ExecDone(s: Snap, s1: Snap, s2: Snap, d: nat, c: seq<Byte>, va: Word, rc: int)
    requires |c| >= 52
  {
    && 0 <= rc <= 2 && (rc == 1 <==> !IsValid(c))
    && (rc == 1 ==> s2 == s1 == s)
    && (rc == 2 ==> LoadFailed(s, s1, d, c) && s2 == s1)
    && (rc == 0 ==> LoadState(s, s1, d, c, PhNum(c)) && MapsData(s1, d, va)
                    && ByteStored(s1, s2, d, va, EntryOf(c) % 256))
  }

  /** sys_exec in the foreground task: 1 for an invalid image, 2 when it cannot be
      loaded, else 0 and the low byte of the entry address is stored at uesp + 4,
      which is to be mapped. */
  method Exec(vm: AddressSpaces, kernel: Tasks.Kernel, uesp: Word, c: seq<Byte>) returns (rc: int, ghost s1: Snap)
    requires 52 <= |c| && vm.Shape() && Holds(Paging.Valid(vm.Now()))
    requires IsValid(c) ==> SinglePage(c) && vm.Enough(2 * PhNum(c))
    requires kernel.fgtask != null && kernel.fgtask.pdir % 4096 == 0 && FrameOf(kernel.fgtask.pdir) in vm.dirs
    requires IsValid(c) ==> MapsData(vm.Now(), FrameOf(kernel.fgtask.pdir), (uesp + 4) % 0x1_0000_0000)
    modifies vm.ram, vm.pm.mngr, vm`free, vm`slot
    ensures vm.Shape()
    ensures Sealed(ExecDone(old(vm.Now()), s1, vm.Now(), FrameOf(kernel.fgtask.pdir), c,
                            (uesp + 4) % 0x1_0000_0000, rc))
  {
    rc, s1 := ExecIn(vm, kernel.fgtask.pdir, VirtualAt(uesp, 4), c);
  }

  method ExecIn(vm: AddressSpaces, pdir: Word, va: Word, c: seq<Byte>) returns (rc: int, ghost s1: Snap)
    requires 52 <= |c| && vm.Shape() && Holds(Paging.Valid(vm.Now()))
    requires IsValid(c) ==> SinglePage(c) && vm.Enough(2 * PhNum(c)) && MapsData(vm.Now(), FrameOf(pdir), va)
    requires pdir % 4096 == 0 && FrameOf(pdir) in vm.dirs
    modifies vm.ram, vm.pm.mngr, vm`free, vm`slot
    ensures vm.Shape() && Sealed(ExecDone(old(vm.Now()), s1, vm.Now(), FrameOf(pdir), c, va, rc))
  {
    ghost var s := vm.Now();
    s1 := s;
    if !IsValid(c) {
      return 1, s;
    }
    rc := MapSections(vm, pdir, c);
    s1 := vm.Now();
    if rc != 0 {
      return 2, s1;
    }
    StillMapped(s, s1, FrameOf(pdir), c, va);
    StoreByte(vm, pdir, va, EntryOf(c) % 256);
  }

  /** The byte is read back at that address. */
  lemma ExecByteRead(s: Snap, s1: Snap, s2: Snap, d: nat, c: seq<Byte>, h: Ehdr, ps: seq<Phdr>, va: Word)
    requires IsImage(c, h, ps) && |c| >= 52 && Holds(ExecDone(s, s1, s2, d, c, va, 0))
    ensures |s2.mem| == NF && d < NF && ReadVirtual(s2.mem, d, va) == Some(h.entry % 256)
  {
    HeaderReads(c, h, ps);
    WrittenKeeps(s1, s2, Target(Walk(s1.mem, d, Page(va)).value));
    assert Walk(s2.mem, d, Page(va)) == Walk(s1.mem, d, Page(va));
  }

  lemma StillMapped(s: Snap, s1: Snap, d: nat, c: seq<Byte>, va: Word)
    requires SinglePage(c) && Holds(LoadState(s, s1, d, c, PhNum(c))) && MapsData(s, d, va)
    ensures Inv(s1) && d in s1.dirs && MapsData(s1, d, va)
  {
    LoadStateOldOrFresh(s, s1, d, c, PhNum(c));
  }

  /** The store goes where the walk leads. */
  method StoreByte(vm: AddressSpaces, pdir: Word, va: Word, b: Byte)
    requires vm.Shape() && Inv(vm.Now()) && FrameOf(pdir) in vm.dirs && MapsData(vm.Now(), FrameOf(pdir), va)
    modifies vm.ram
    ensures vm.Shape() && Holds(ByteStored(old(vm.Now()), vm.Now(), FrameOf(pdir), va, b))
  {
    var e, tentry := Fork.WalkByHand(vm, pdir, va);
    vm.ram[Target(tentry)] := SetFrameByte(vm.ram[Target(tentry)], va % 4096, b);
  }

  /** The shell's sequence: when the child of a fork loads an image into its run's
      directory entry, successfully or not, the parent's run keeps its
      translations and its bytes. */
  lemma ForkThenExec(s: Snap, s1: Snap, s2: Snap, p: nat, c: nat, n: nat, stack: nat, image: seq<Byte>)
    requires Holds(ForkedSpace(s, s1, p, c, n, stack)) && n > 0 && SinglePage(image)
    requires Holds(LoadState(s1, s2, c, image, PhNum(image))) || Holds(LoadFailed(s1, s2, c, image))
    requires forall m :: 0 <= m < PhNum(image) && Seg(image, m).Loads() ==>
      Page(Seg(image, m).vaddr) / 1024 == RUN_INDEX
    ensures IsRun(s, p, n) && |s2.mem| == NF && forall k :: 0 <= k < n ==> ParentPage(s, s2, p, n, k)
    ensures Inv(s1) && p in s1.dirs && forall q :: 0 <= q < NPAGES ==> Walk(s2.mem, p, q) == Walk(s1.mem, p, q)
  {
    forall q | 0 <= q < NPAGES ensures Walk(s2.mem, p, q) == Walk(s1.mem, p, q) {
      assert Clear(image, q / 1024) || Apart(s1, c, p, q / 1024);
      assert SparedAt(s1, s2, c, p, q / 1024);
    }
    forall k | 0 <= k < n ensures ParentPage(s, s2, p, n, k) {
      assert ParentPage(s, s1, p, n, k);
      assert IsData(s, Target(RunEntry(s, p, n, k)));
    }
  }
}
