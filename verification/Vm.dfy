/** Address spaces (vm.c): page directories and tables edited in place in
    physical memory, with the kernel and I/O tables shared through caches. */
module Vm {
  import opened Wrappers
  import opened Words
  import opened Pm
  import opened Paging
  import opened Windows
  import opened Directories

  /** The kernel's view of physical address pa: P2KH */
  function P2KH(pa: Word): Word {
    (pa + KHALF) % 0x1_0000_0000
  }

  /** The physical address behind a kernel address: KH2P */
  function KH2P(kp: Word): Word {
    (kp - KHALF) % 0x1_0000_0000
  }

  function FrameOf(kp: Word): nat {
    KH2P(kp) / 4096
  }

  /** The frame of a cache pointer, 0 for the null pointer. */
  function CacheFrame(cache: Word): nat {
    if cache == 0 then 0 else FrameOf(cache)
  }

  /** The kernel address of frame f. */
  function Kernel(f: nat): (kp: Word)
    requires f < NF
    ensures FrameOf(kp) == f && kp % 4096 == 0 && kp >= KHALF
  {
    P2KH(4096 * f)
  }

  lemma NullKernel(pa: Word)
    ensures P2KH(pa) == P2KH(0) <==> pa == 0
  {
  }

  /** Flags riding on a frame's address do not disturb the way to the frame. */
  lemma TablePointer(e: Word)
    requires Target(e) < NF
    ensures FrameOf(PageBase(P2KH(e))) == Target(e)
  {
  }

  /** Entries of kernel tables: present and writable */
  lemma KernelEntry(a: nat)
    requires a < 0x10_0000
    ensures Entry(PageBase(a * 4096), PTE_W) == a * 4096 + 3
  {
    assert Or(Or(0, PTE_P), PTE_W) == 3;
    assert PageBase(a * 4096) == a * 4096;
    var e := Entry(a * 4096, PTE_W);
    assert e == Target(e) * 4096 + e % 4096;
  }

  /** The k-th address of the kernel loop. */
  function KernelAt(k: nat): Word
    requires k <= 0x1_0000
  {
    KHALF + k * 4096
  }

  lemma KernelLoop(k: nat)
    requires k <= 0x1_0000
    ensures k < 0x1_0000 ==> NextPage(KernelAt(k)) == KernelAt(k + 1)
    ensures KernelAt(k) < P2KH(KHEAP) <==> k < 0x1_0000
    ensures KH2P(KernelAt(k)) == k * 4096 && Page(KernelAt(k)) == 0xC_0000 + k
  {
  }

  /** The k-th address of the I/O loop: 8192 pages, then 0. */
  function IoAt(k: nat): Word
    requires k <= 0x2000
  {
    if k == 0x2000 then 0 else IO_START + k * 4096
  }

  lemma IoLoop(k: nat)
    requires k <= 0x2000
    ensures k < 0x2000 ==> NextPage(IoAt(k)) == IoAt(k + 1) && Page(IoAt(k)) == 0xF_E000 + k
    ensures IoAt(k) == 0 <==> k == 0x2000
  {
  }

  lemma IoFirst()
    ensures Sealed(IO_START == IoAt(0))
  {
  }

  /** The same about the loop's variable */
  lemma IoPass(va: Word, k: nat)
    requires k <= 0x2000 && Sealed(va == IoAt(k))
    ensures va == 0 <==> k == 0x2000
    ensures k < 0x2000 ==> Sealed(NextPage(va) == IoAt(k + 1))
  {
    Unseal(va == IoAt(k));
    IoLoop(k);
  }

  lemma IoLeft(s: Snap, s': Snap, d: nat, va: Word, k: nat)
    requires k <= 0x2000 && Sealed(va == IoAt(k)) && va == 0
    requires Sealed(Progress(s, s', IoWindow(s), d, k))
    ensures Sealed(Filled(s, s', IoWindow(s), d, true))
  {
    IoPass(va, k);
    WindowEnds(s, s', IoWindow(s), d, k);
  }

  /** The free frames that the kernel window reaches, and the rest */
  ghost predicate Parts(all: set<nat>, low: set<nat>, high: set<nat>) {
    all == low + high && (forall f :: f in low ==> f < NF) && (forall f :: f in high ==> f >= NF)
  }

  ghost function Below(all: set<nat>, n: nat): set<nat> {
    set f | f in all && f < n
  }

  /** pa is the address of the least of the frames `low`, which leaves `rest`;
      or it is 0 and there was none. */
  ghost predicate Handed(low: set<nat>, pa: Word, rest: set<nat>) {
    if low == {} then pa == 0 && rest == {}
    else
      var f := Least(low);
      && 0 < f < NF && pa == 4096 * f && P2KH(pa) == Kernel(f)
      && rest == low - {f} && |rest| == |low| - 1
  }

  /** The frame handed out has been zeroed as well. */
  ghost predicate Zeroed(s: Snap, s': Snap, pa: Word) {
    if s.free == {} then pa == 0 && s' == s
    else
      var f := Least(s.free);
      && 0 < f < NF && pa == 4096 * f && P2KH(pa) == Kernel(f)
      && |s.mem| == NF && s' == s.(mem := s.mem[f := ZeroFrame()], free := s.free - {f})
  }

  /** vm_map_page has found the table for index i: ptbl leads to it. */
  ghost predicate Found(s: Snap, s': Snap, d: nat, i: nat, c: Cached, ptbl: Word) {
    && Inv(s) && d in s.dirs && i < 1024 && CachedOk(s, c, i) && !(NeedsTable(s, d, i, c) && s.free == {})
    && var t := TableFor(s, d, i, c);
    && Target(ptbl) == t && ptbl == (if Attaches(s, d, i, c) then s.mem[c.frame][c.index] else t * 4096)
    && s' == s.(mem := if t in s.free then s.mem[t := ZeroFrame()] else s.mem,
                free := s.free - {t}, slot := s.slot[t := i])
  }

  /** The outcome of the search: a code, and nothing has changed, exactly when a
      table is needed and no frame is free. */
  ghost predicate TableResult(s: Snap, s': Snap, d: nat, i: nat, c: Cached, rc: int, ptbl: Word) {
    && Inv(s) && d in s.dirs && i < 1024 && CachedOk(s, c, i)
    && (rc == 0 <==> !(NeedsTable(s, d, i, c) && s.free == {}))
    && (rc == 0 ==> Found(s, s', d, i, c, ptbl))
    && (rc != 0 ==> s' == s && rc == if c != NoCache then 1 else 2)
  }

  /** The directory has no table; a frame can be allocated, or its absence will
      be noticed. */
  ghost predicate Searching(s: Snap, d: nat, i: nat, c: Cached, unsure: bool) {
    && Inv(s) && d in s.dirs && i < 1024 && CachedOk(s, c, i) && !Present(s.mem[d][i])
    && (unsure || !(NeedsTable(s, d, i, c) && s.free == {}))
  }

  ghost predicate InCache(s: Snap, c: Cached) {
    c != NoCache && c.frame < |s.mem| && c.index < 1024 && Present(s.mem[c.frame][c.index])
  }

  lemma MustAllocate(s: Snap, d: nat, i: nat, c: Cached, unsure: bool)
    requires Holds(Searching(s, d, i, c, unsure)) && !InCache(s, c)
    ensures 0 !in s.free && (unsure || s.free != {})
  {
  }

  lemma FoundInCache(s: Snap, d: nat, i: nat, c: Cached, unsure: bool, ptbl: Word)
    requires Holds(Searching(s, d, i, c, unsure)) && InCache(s, c)
    requires ptbl == s.mem[c.frame][c.index]
    ensures Holds(TableResult(s, s, d, i, c, 0, ptbl))
  {
    assert EntryOk(s, ptbl, i);
    assert s.slot[Target(ptbl) := i] == s.slot;
  }

  lemma FoundFree(s: Snap, z: Snap, s': Snap, d: nat, i: nat, c: Cached, unsure: bool, pa: Word, rc: int)
    requires Holds(Searching(s, d, i, c, unsure)) && !InCache(s, c)
    requires Holds(Zeroed(s, z, pa))
    requires pa != 0 ==> rc == 0 && s' == z.(slot := z.slot[pa / 4096 := i])
    requires pa == 0 ==> s' == z && rc == if c != NoCache then 1 else 2
    ensures Holds(TableResult(s, s', d, i, c, rc, pa))
  {
  }

  ghost predicate NoTables(dirs: set<nat>, slot: map<nat, nat>) {
    dirs == {} && slot == map[]
  }

  /** The present bits are clear in the two frames the caches will be put in. */
  ghost predicate CachesClear(m: seq<Frame>, free: set<nat>) {
    |m| == NF && (forall f :: f in free ==> 0 < f < NF)
    && (|free| >= 2 ==>
        var k := Least(free);
        free - {k} != {} &&
        var io := Least(free - {k});
        && (forall i :: 0 <= i < 64 ==> !Present(m[k][i]))
        && (forall i :: 0 <= i < 8 ==> !Present(m[io][i])))
  }

  /** The least free frame has become a cache with the given bounds. */
  ghost predicate CacheMade(m: seq<Frame>, free: set<nat>, m': seq<Frame>, free': set<nat>, cache: Word,
                            base: Word, limit: Word) {
    if free == {} then cache == P2KH(0) && m' == m && free' == {}
    else
      var f := Least(free);
      && f < NF && |m| == NF && cache == Kernel(f) && cache != P2KH(0)
      && free' == free - {f} && |free'| == |free| - 1
      && m' == m[f := m[f][CACHE_BASE := base][CACHE_LIMIT := limit]]
  }

  lemma FramesLeft(m: seq<Frame>, free: set<nat>, m': seq<Frame>, free': set<nat>, cache: Word, base: Word, limit: Word)
    requires Holds(CacheMade(m, free, m', free', cache, base, limit)) && cache != P2KH(0)
    ensures |free'| == |free| - 1
  {
  }

  /** One cache after the other, as far as there are frames; m1 and free1 are
      memory and free frames in between. */
  ghost predicate CachesVia(m: seq<Frame>, free: set<nat>, m1: seq<Frame>, free1: set<nat>, m': seq<Frame>,
                            free': set<nat>, kc: Word, ioc: Word, rc: int) {
    && CacheMade(m, free, m1, free1, kc, KHALF, KHALF + KHEAP)
    && (kc == P2KH(0) ==> rc == 1)
    && (kc != P2KH(0) ==> CacheMade(m1, free1, m', free', ioc, IO_START, IO_END)
                          && rc == if ioc == P2KH(0) then 1 else 0)
  }

  ghost predicate TwoCaches(m: seq<Frame>, free: set<nat>, m': seq<Frame>, free': set<nat>, kc: Word, ioc: Word,
                            rc: int) {
    exists m1, free1 :: CachesVia(m, free, m1, free1, m', free', kc, ioc, rc)
  }

  lemma OneAfterOther(m: seq<Frame>, free: set<nat>, m1: seq<Frame>, free1: set<nat>, m': seq<Frame>, free': set<nat>,
                      kc: Word, ioc: Word, rc: int)
    requires Holds(CacheMade(m, free, m1, free1, kc, KHALF, KHALF + KHEAP))
    requires kc == P2KH(0) ==> rc == 1
    requires kc != P2KH(0) ==> Holds(CacheMade(m1, free1, m', free', ioc, IO_START, IO_END))
    requires kc != P2KH(0) ==> rc == if ioc == P2KH(0) then 1 else 0
    ensures 0 <= rc <= 1 && Holds(TwoCaches(m, free, m', free', kc, ioc, rc))
  {
    assert CachesVia(m, free, m1, free1, m', free', kc, ioc, rc);
  }

  lemma CachesMade(m: seq<Frame>, free: set<nat>, kc: Word, ioc: Word, rc: int, s: Snap)
    requires Holds(CachesClear(m, free)) && Holds(TwoCaches(m, free, s.mem, s.free, kc, ioc, rc))
    requires Holds(NoTables(s.dirs, s.slot)) && s.kc == FrameOf(kc) && s.ioc == FrameOf(ioc)
    ensures rc == 0 <==> |free| >= 2
    ensures rc == 0 ==> Holds(NoDirectory(s, |free|))
    ensures rc == 0 ==> s.kc < NF && s.ioc < NF && kc == Kernel(s.kc) && ioc == Kernel(s.ioc)
  {
    var m1, free1 :| CachesVia(m, free, m1, free1, s.mem, s.free, kc, ioc, rc);
    if rc == 0 {
      CachesPlaced(m, free, s);
    }
  }

  /** The allocator hands out the low frames first. */
  lemma HandsOutLow(all: set<nat>, low: set<nat>, high: set<nat>, pa: Word, all': set<nat>)
    requires Parts(all, low, high) && 0 !in low && (low == {} ==> high == {})
    requires all == {} ==> pa == 0 && all' == {}
    requires all != {} ==> pa == 4096 * Least(all) && all' == all - {Least(all)}
    ensures var rest := if low == {} then {} else low - {Least(low)};
      Holds(Handed(low, pa, rest)) && Holds(Parts(all', rest, high)) && 0 !in rest
  {
    if low != {} {
      LeastOfPart(all, low, NF);
      TakesOne(low, low - {Least(low)}, Least(low));
    }
  }

  class AddressSpaces {
    const ram: array<Frame>
    const pm: FrameManager
    var kcache: Word
    var iocache: Word
    var kpdir: Word
    ghost var dirs: set<nat>
    ghost var slot: map<nat, nat>
    ghost var free: set<nat>     // the free frames below KHEAP
    ghost const high: set<nat>   // those at and above it, free from boot on

    /** The statics of vm.c over the machine's memory and frame allocator. */
    constructor (memory: array<Frame>, frames: FrameManager)
      requires memory.Length == NF && frames.Valid()
      ensures Shape() && ram == memory && pm == frames && dirs == {} && slot == map[]
      ensures free == Below(frames.Free(), NF) && high == frames.Free() - free
    {
      ram, pm := memory, frames;
      kcache, iocache, kpdir := 0, 0, 0;
      dirs, slot := {}, map[];
      free := Below(frames.Free(), NF);
      high := frames.Free() - Below(frames.Free(), NF);
    }

    ghost predicate Shape()
      reads this`free, pm.mngr
    {
      Holds(ram.Length == NF && pm.Valid() && Parts(pm.Free(), free, high))
    }

    /** Enough for n allocations that the kernel can reach; without high frames
        the allocator itself reports when there are too few. */
    ghost predicate Enough(n: int)
      reads this`free
    {
      high == {} || |free| >= n
    }

    ghost function Now(): Snap
      reads this`free, this`dirs, this`slot, this`kcache, this`iocache, ram
    {
      Snap(ram[..], free, dirs, slot, FrameOf(kcache), FrameOf(iocache))
    }

    /** 0, which the allocator uses for "out of memory", is not a free frame. */
    ghost predicate FramesUsable()
      reads this`free
    {
      0 !in free
    }

    /** pm_alloc_frame, where the kernel can reach the frame it finds */
    method Alloc() returns (pa: Word)
      requires Shape() && FramesUsable() && Enough(1)
      modifies pm.mngr, this`free
      ensures Shape() && FramesUsable() && Holds(Handed(old(free), pa, free))
    {
      ghost var all, low := pm.Free(), free;
      pa := pm.AllocFrame();
      HandsOutLow(all, low, high, pa, pm.Free());
      free := if low == {} then {} else low - {Least(low)};
    }

    method SetWord(f: nat, i: nat, v: Word)
      requires Shape() && f < NF && i < 1024
      modifies ram
      ensures ram[..] == old(ram[..])[f := old(ram[f])[i := v]]
    {
      ram[f] := ram[f][i := v];
    }

    /** vm_alloc_pte: a zeroed frame, or 0. */
    method AllocPte() returns (pa: Word)
      requires Shape() && FramesUsable() && Enough(1)
      modifies ram, pm.mngr, this`free
      ensures Shape() && FramesUsable() && Holds(Zeroed(old(Now()), Now(), pa))
    {
      pa := Alloc();
      if pa != 0 {
        ram[FrameOf(P2KH(pa))] := ZeroFrame();
      }
    }

    /** USE_CACHE(cache, va): null, or va inside [base, limit]. */
    predicate UseCache(cache: Word, va: Word)
      requires Shape() && (cache != 0 ==> FrameOf(cache) < NF)
      reads this, ram, pm.mngr
    {
      cache != 0 && ram[FrameOf(cache)][CACHE_BASE] <= va <= ram[FrameOf(cache)][CACHE_LIMIT]
    }

    /** What callers of vm_map_page respect: the directory is one of ours, the
        flags are below PTE_PS, and a cache is one of the two caches. */
    ghost predicate Callable(pdir: Word, va: Word, flags: Word, cache: Word)
      reads this, ram, pm.mngr
    {
      && Shape() && Inv(Now())
      && pdir % 4096 == 0 && FrameOf(pdir) in dirs
      && flags < 128
      && (cache == 0 || cache == kcache || cache == iocache)
      && IsCache(Now(), CacheFrame(cache), va)
      && (high == {}
          || Mappable(Now(), FrameOf(pdir), Page(va), flags, CacheFor(Now(), CacheFrame(cache), va)))
    }

    /** vm_map_page */
    method MapPage(pdir: Word, pa: Word, va: Word, flags: Word, cache: Word) returns (rc: int)
      requires Holds(Callable(pdir, va, flags, cache))
      modifies ram, pm.mngr, this`free, this`slot
      ensures Shape()
      ensures Holds(MapPageResult(old(Now()), Now(), FrameOf(pdir), va, Entry(PageBase(pa), flags), flags,
                                  CacheFrame(cache), rc))
    {
      ghost var s, c := Now(), CacheFor(Now(), CacheFrame(cache), va);
      var ptbl;
      rc, ptbl := GetTable(pdir, va, flags, cache);
      if rc == 0 {
        ghost var m := Now();
        TablePointer(ptbl);
        SetWord(FrameOf(PageBase(P2KH(ptbl))), PTBLE(va), Entry(PageBase(pa), flags));
        MappedByWrites(s, m, Now(), FrameOf(pdir), Page(va), Entry(PageBase(pa), flags), flags, c);
      }
    }

    /** The first half of vm_map_page: the table that serves va, taken from the
        directory, or from elsewhere and then entered in directory and cache. */
    method GetTable(pdir: Word, va: Word, flags: Word, cache: Word) returns (rc: int, ptbl: Word)
      requires Holds(Callable(pdir, va, flags, cache))
      modifies ram, pm.mngr, this`free, this`slot
      ensures Shape()
      ensures var s, d, c := old(Now()), FrameOf(pdir), CacheFor(old(Now()), CacheFrame(cache), va);
        && (rc == 0 <==> Mappable(s, d, Page(va), flags, c))
        && (rc == 0 ==> Holds(HasTable(s, Now(), d, Page(va), flags, c))
                        && Target(ptbl) == TableFor(s, d, Page(va) / 1024, c))
        && (rc != 0 ==> Now() == s && rc == if c != NoCache then 1 else 2)
    {
      var d, i := FrameOf(pdir), PDIRE(va);
      ghost var s, c := Now(), CacheFor(Now(), CacheFrame(cache), va);
      rc := 0;
      if Present(ram[d][i]) {
        ptbl := ram[d][i];
        assert EntryOk(s, s.mem[d][i], i);
      } else {
        var use := UseCache(cache, va);
        var frame := if use then FrameOf(cache) else 0;
        var index := if use then PDIRE(va - ram[frame][CACHE_BASE]) else 0;
        rc, ptbl := FindTable(d, i, frame, index, c);
        if rc == 0 {
          EnterTable(d, i, frame, index, Entry(ptbl, flags), c);
        }
      }
    }

    /** The directory has no table: take the cached one, or allocate. */
    method FindTable(d: nat, i: nat, frame: nat, index: nat, ghost c: Cached) returns (rc: int, ptbl: Word)
      requires Shape() && Holds(Searching(Now(), d, i, c, high == {}))
      requires c == (if frame == 0 then NoCache else Cached(frame, index)) && frame < NF && index < 1024
      modifies ram, pm.mngr, this`free, this`slot
      ensures Shape()
      ensures Holds(TableResult(old(Now()), Now(), d, i, c, rc, ptbl))
    {
      ghost var s := Now();
      rc := 0;
      if frame != 0 && Present(ram[frame][index]) {
        ptbl := ram[frame][index];
        FoundInCache(s, d, i, c, high == {}, ptbl);
      } else {
        MustAllocate(s, d, i, c, high == {});
        ptbl := AllocPte();
        ghost var z := Now();
        if ptbl == 0 {
          rc := if frame == 0 then 2 else 1;
        } else {
          slot := slot[ptbl / 4096 := i];
        }
        FoundFree(s, z, Now(), d, i, c, high == {}, ptbl, rc);
      }
    }

    /** pdir[PDIRE(va)] = *entry = e */
    method EnterTable(d: nat, i: nat, frame: nat, index: nat, e: Word, ghost c: Cached)
      requires Shape() && d < NF && i < 1024 && frame < NF && index < 1024
      requires c == if frame == 0 then NoCache else Cached(frame, index)
      modifies ram
      ensures ram[..] == WithEntries(old(ram[..]), d, i, c, e)
    {
      SetWord(d, i, e);
      if frame != 0 {
        SetWord(frame, index, e);
      }
    }

    /** kcache and iocache have been set. */
    ghost predicate CachesSet()
      reads this`kcache, this`iocache
    {
      Holds(FrameOf(kcache) < NF && FrameOf(iocache) < NF
            && kcache == Kernel(FrameOf(kcache)) && iocache == Kernel(FrameOf(iocache)))
    }

    /** One pass of the loops of vm_map_kernel and vm_map_io. */
    method MapWindowPage(pdir: Word, pa: Word, va: Word, cache: Word, ghost s: Snap, ghost w: Window, ghost k: nat)
      returns (rc: int)
      requires Shape() && pdir % 4096 == 0
      requires (cache == kcache || cache == iocache) && CacheFrame(cache) == w.cache
      requires Sealed(Progress(s, Now(), w, FrameOf(pdir), k))
      requires Holds(PageArgs(Now(), w, Entry(PageBase(pa), PTE_W), va, k))
      requires Holds(Supplied(s, w, high == {}))
      modifies ram, pm.mngr, this`free, this`slot
      ensures Shape()
      ensures rc == 0 ==> Sealed(Progress(s, Now(), w, FrameOf(pdir), k + 1))
      ensures rc != 0 ==> Sealed(Filled(s, Now(), w, FrameOf(pdir), false))
    {
      ghost var before := Now();
      PageCanBeMapped(s, before, w, FrameOf(pdir), k, Entry(PageBase(pa), PTE_W), va, high == {});
      assert Callable(pdir, va, PTE_W, cache);
      rc := MapPage(pdir, pa, va, PTE_W, cache);
      WindowPage(s, before, Now(), w, FrameOf(pdir), k, Entry(PageBase(pa), PTE_W), va, rc);
    }

    /** The pass of vm_map_kernel for page k */
    method MapKernelPage(pdir: Word, va: Word, ghost s: Snap, ghost k: nat) returns (rc: int)
      requires Shape() && CachesSet() && pdir % 4096 == 0 && k < 0x1_0000 && va == KernelAt(k)
      requires Sealed(Progress(s, Now(), KernelWindow(s), FrameOf(pdir), k))
      requires Holds(Supplied(s, KernelWindow(s), high == {}))
      modifies ram, pm.mngr, this`free, this`slot
      ensures Shape()
      ensures rc == 0 ==> Sealed(Progress(s, Now(), KernelWindow(s), FrameOf(pdir), k + 1))
      ensures rc != 0 ==> Sealed(Filled(s, Now(), KernelWindow(s), FrameOf(pdir), false))
    {
      KernelPage(pdir, va, s, k);
      rc := MapWindowPage(pdir, KH2P(va), va, kcache, s, KernelWindow(s), k);
    }

    /** The pass of vm_map_io for page k */
    method MapIoPage(pdir: Word, va: Word, ghost s: Snap, ghost k: nat) returns (rc: int)
      requires Shape() && CachesSet() && pdir % 4096 == 0 && k < 0x2000 && Sealed(va == IoAt(k))
      requires Sealed(Progress(s, Now(), IoWindow(s), FrameOf(pdir), k))
      requires Holds(Supplied(s, IoWindow(s), high == {}))
      modifies ram, pm.mngr, this`free, this`slot
      ensures Shape()
      ensures rc == 0 ==> Sealed(Progress(s, Now(), IoWindow(s), FrameOf(pdir), k + 1))
      ensures rc != 0 ==> Sealed(Filled(s, Now(), IoWindow(s), FrameOf(pdir), false))
    {
      IoPage(pdir, va, s, k);
      rc := MapWindowPage(pdir, va, va, iocache, s, IoWindow(s), k);
    }

    /** vm_map_kernel: the first 256 MiB of memory at KHALF. */
    method MapKernel(pdir: Word) returns (rc: int)
      requires Shape() && CachesSet() && pdir % 4096 == 0
      requires Sealed(CanFill(Now(), KernelWindow(Now()), FrameOf(pdir)))
      requires Holds(Supplied(Now(), KernelWindow(Now()), high == {}))
      modifies ram, pm.mngr, this`free, this`slot
      ensures Shape() && 0 <= rc <= 1
      ensures Sealed(Filled(old(Now()), Now(), KernelWindow(old(Now())), FrameOf(pdir), rc == 0))
    {
      ghost var s := Now();
      var va: Word := KHALF;
      ghost var k: nat := 0;
      WindowBegins(s, KernelWindow(s), FrameOf(pdir));
      while va < P2KH(KHEAP)
        invariant Shape() && k <= 0x1_0000 && va == KernelAt(k)
        invariant Sealed(Progress(s, Now(), KernelWindow(s), FrameOf(pdir), k))
        decreases 0x1_0000 - k
      {
        KernelLoop(k);
        rc := MapKernelPage(pdir, va, s, k);
        if rc != 0 {
          return 1;
        }
        va := NextPage(va);
        k := k + 1;
      }
      KernelLoop(k);
      WindowEnds(s, Now(), KernelWindow(s), FrameOf(pdir), k);
      rc := 0;
    }

    /** vm_map_io: the I/O range onto itself; the loop ends when va wraps to 0. */
    method MapIo(pdir: Word) returns (rc: int)
      requires Shape() && CachesSet() && pdir % 4096 == 0
      requires Sealed(CanFill(Now(), IoWindow(Now()), FrameOf(pdir)))
      requires Holds(Supplied(Now(), IoWindow(Now()), high == {}))
      modifies ram, pm.mngr, this`free, this`slot
      ensures Shape() && 0 <= rc <= 1
      ensures Sealed(Filled(old(Now()), Now(), IoWindow(old(Now())), FrameOf(pdir), rc == 0))
    {
      ghost var s := Now();
      var va: Word := IO_START;
      ghost var k: nat := 0;
      IoFirst();
      WindowBegins(s, IoWindow(s), FrameOf(pdir));
      while va != 0
        invariant Shape() && k <= 0x2000 && Sealed(va == IoAt(k))
        invariant Sealed(Progress(s, Now(), IoWindow(s), FrameOf(pdir), k))
        decreases 0x2000 - k
      {
        IoPass(va, k);
        rc := MapIoPage(pdir, va, s, k);
        if rc != 0 {
          return 1;
        }
        va := NextPage(va);
        k := k + 1;
      }
      IoLeft(s, Now(), FrameOf(pdir), va, k);
      rc := 0;
    }

    /** In the kernel window, page k goes through cache entry k / 1024. */
    lemma KernelPage(pdir: Word, va: Word, s: Snap, k: nat)
      requires Shape() && CachesSet() && Sealed(Progress(s, Now(), KernelWindow(s), FrameOf(pdir), k))
      requires k < 0x1_0000 && va == KernelAt(k)
      ensures Holds(PageArgs(Now(), KernelWindow(s), Entry(PageBase(KH2P(va)), PTE_W), va, k))
      ensures CacheFrame(kcache) == KernelWindow(s).cache
    {
      WindowKept(s, Now(), KernelWindow(s), FrameOf(pdir), k);
      KernelLoop(k);
      KernelEntry(k);
    }

    lemma IoPage(pdir: Word, va: Word, s: Snap, k: nat)
      requires Shape() && CachesSet() && Sealed(Progress(s, Now(), IoWindow(s), FrameOf(pdir), k))
      requires k < 0x2000 && Sealed(va == IoAt(k))
      ensures Holds(PageArgs(Now(), IoWindow(s), Entry(PageBase(va), PTE_W), va, k))
      ensures CacheFrame(iocache) == IoWindow(s).cache
    {
      WindowKept(s, Now(), IoWindow(s), FrameOf(pdir), k);
      Unseal(va == IoAt(k));
      IoLoop(k);
      KernelEntry(0xF_E000 + k);
    }

    /** vm_new_pdir: 0, or the kernel address of a new directory. */
    method NewPdir() returns (pdir: Word)
      requires Shape() && CachesSet() && Holds(Paging.Valid(Now())) && Enough(Need(Now()))
      modifies ram, pm.mngr, this`free, this`slot, this`dirs
      ensures Shape()
      ensures pdir != 0 ==> FrameOf(pdir) < NF && pdir == Kernel(FrameOf(pdir))
      ensures Holds(Built(old(Now()), Now(), if pdir == 0 then None else Some(FrameOf(pdir))))
    {
      ghost var s := Now();
      pdir := EmptyPdir();
      if pdir == 0 {
        OutOfFrames(s);
        return 0;
      }
      var rc := FillPdir(pdir, s);
      if rc != 0 {
        return 0;
      }
    }

    /** The two maps of vm_new_pdir; a directory that is not completed is
        forgotten. */
    method FillPdir(pdir: Word, ghost s: Snap) returns (rc: int)
      requires Shape() && CachesSet() && pdir % 4096 == 0
      requires Holds(Added(s, Now(), FrameOf(pdir))) && (high == {} || |s.free| >= Need(s))
      modifies ram, pm.mngr, this`free, this`slot, this`dirs
      ensures Shape()
      ensures Holds(Built(s, Now(), if rc != 0 then None else Some(FrameOf(pdir))))
    {
      ghost var s1 := Now();
      rc := FillKernel(pdir, s);
      if rc == 0 {
        rc := FillIo(pdir, s, s1);
      }
    }

    /** The first map of vm_new_pdir */
    method FillKernel(pdir: Word, ghost s: Snap) returns (rc: int)
      requires Shape() && CachesSet() && pdir % 4096 == 0
      requires Holds(Added(s, Now(), FrameOf(pdir))) && (high == {} || |s.free| >= Need(s))
      modifies ram, pm.mngr, this`free, this`slot, this`dirs
      ensures Shape()
      ensures rc == 0 ==> Sealed(Progress(old(Now()), Now(), KernelWindow(old(Now())), FrameOf(pdir), 0x1_0000))
      ensures rc != 0 ==> Holds(Built(s, Now(), None))
    {
      ghost var s1, d := Now(), FrameOf(pdir);
      ReadyForKernel(s, s1, d, high == {});
      rc := MapKernel(pdir);
      if rc != 0 {
        GiveUp(s, s1, d);
      }
    }

    /** The ghost state no longer calls frame d a directory. */
    ghost method Forget(d: nat)
      modifies this`dirs
      ensures Now() == old(Now()).(dirs := old(dirs) - {d})
    {
      dirs := dirs - {d};
    }

    /** After a failure of the first map */
    ghost method GiveUp(s: Snap, s1: Snap, d: nat)
      requires Holds(Added(s, s1, d)) && Sealed(Filled(s1, Now(), KernelWindow(s1), d, false))
      modifies this`dirs
      ensures Holds(Built(s, Now(), None))
    {
      var s2 := Now();
      Forget(d);
      KernelFailed(s, s1, s2, Now(), d);
    }

    /** After the second map */
    ghost method EndIo(s: Snap, s1: Snap, s2: Snap, d: nat, ok: bool)
      requires Holds(Added(s, s1, d)) && Sealed(Progress(s1, s2, KernelWindow(s1), d, 0x1_0000))
      requires Sealed(Filled(s2, Now(), IoWindow(s2), d, ok))
      modifies this`dirs
      ensures Holds(Built(s, Now(), if ok then Some(d) else None))
    {
      var s3 := Now();
      if !ok {
        Forget(d);
      }
      IoEnds(s, s1, s2, s3, Now(), d, ok);
    }

    /** The second map of vm_new_pdir, after the first has succeeded. */
    method FillIo(pdir: Word, ghost s: Snap, ghost s1: Snap) returns (rc: int)
      requires Shape() && CachesSet() && pdir % 4096 == 0
      requires Holds(Added(s, s1, FrameOf(pdir)))
      requires Sealed(Progress(s1, Now(), KernelWindow(s1), FrameOf(pdir), 0x1_0000))
      requires high == {} || |s.free| >= Need(s)
      modifies ram, pm.mngr, this`free, this`slot, this`dirs
      ensures Shape()
      ensures Holds(Built(s, Now(), if rc != 0 then None else Some(FrameOf(pdir))))
    {
      ghost var s2, d := Now(), FrameOf(pdir);
      ReadyForIo(s, s1, s2, d, high == {});
      rc := MapIo(pdir);
      EndIo(s, s1, s2, d, rc == 0);
    }

    /** A zeroed frame for vm_new_pdir; the ghost state calls it a directory. */
    method EmptyPdir() returns (pdir: Word)
      requires Shape() && Holds(Paging.Valid(Now())) && Enough(1)
      modifies ram, pm.mngr, this`free, this`dirs
      ensures Shape()
      ensures pdir == 0 ==> Now() == old(Now()) && free == {}
      ensures pdir != 0 ==> FrameOf(pdir) < NF && pdir == Kernel(FrameOf(pdir))
      ensures pdir != 0 ==> Holds(Added(old(Now()), Now(), FrameOf(pdir)))
    {
      var pa := AllocPte();
      if pa == 0 {
        return 0;
      }
      pdir := P2KH(pa);
      assert pdir == Kernel(Least(old(free)));
      dirs := dirs + {FrameOf(pdir)};
    }

    /** The statics are clear, and so are the present bits in the two frames the
        caches will be put in; vm_init does not clear them. */
    ghost predicate Booted()
      reads this, ram, pm.mngr
    {
      && Shape() && FramesUsable() && Holds(NoTables(dirs, slot))
      && Holds(CachesClear(ram[..], free))
    }

    /** vm_init: the caches, and the kernel's own directory. */
    method Init() returns (rc: int)
      requires Booted() && Enough(75)
      modifies this`kcache, this`iocache, this`kpdir, this`dirs, this`slot, this`free, ram, pm.mngr
      ensures Shape()
      ensures 0 <= rc <= 1 && (rc == 0 <==> |old(free)| >= 75)
      ensures rc == 0 ==>
        && CachesSet() && Holds(Paging.Valid(Now()))
        && |free| == |old(free)| - 75
        && FrameOf(kpdir) < NF && kpdir == Kernel(FrameOf(kpdir)) && dirs == {FrameOf(kpdir)}
        && forall p :: 0 <= p < NPAGES ==> Walk(Now().mem, FrameOf(kpdir), p) == BootWalk(p)
    {
      ghost var n := |free|;
      rc := InitCaches();
      if rc == 0 {
        ghost var s := Now();
        kpdir := NewPdir();
        FirstBuilt(n, s, Now(), if kpdir == 0 then None else Some(FrameOf(kpdir)));
        rc := if kpdir == 0 then 1 else 0;
      }
    }

    /** The two caches of vm_init. */
    method InitCaches() returns (rc: int)
      requires Booted() && Enough(2)
      modifies `kcache, `iocache, `free, ram, pm.mngr
      ensures Shape()
      ensures 0 <= rc <= 1 && (rc == 0 <==> |old(free)| >= 2)
      ensures rc == 0 ==> CachesSet() && Holds(NoDirectory(Now(), |old(free)|))
    {
      ghost var m, all := ram[..], free;
      rc := SetCaches();
      CachesMade(m, all, kcache, iocache, rc, Now());
    }

    method SetCaches() returns (rc: int)
      requires Shape() && FramesUsable() && Enough(2)
      modifies `kcache, `iocache, `free, ram, pm.mngr
      ensures Shape()
      ensures 0 <= rc <= 1 && Holds(TwoCaches(old(ram[..]), old(free), ram[..], free, kcache, iocache, rc))
    {
      ghost var m, all := ram[..], free;
      SetKcache();
      ghost var m1, rest := ram[..], free;
      if kcache == P2KH(0) {
        rc := 1;
      } else {
        FramesLeft(m, all, m1, rest, kcache, KHALF, KHALF + KHEAP);
        SetIocache();
        rc := if iocache == P2KH(0) then 1 else 0;
      }
      OneAfterOther(m, all, m1, rest, ram[..], free, kcache, iocache, rc);
    }

    method SetKcache()
      requires Shape() && FramesUsable() && Enough(1)
      modifies this`kcache, ram, pm.mngr, this`free
      ensures Shape() && FramesUsable()
      ensures Holds(CacheMade(old(ram[..]), old(free), ram[..], free, kcache, KHALF, KHALF + KHEAP))
    {
      var k := NewCache(KHALF, KHALF + KHEAP);
      ghost var m := ram[..];
      kcache := k;
      assert ram[..] == m;
    }

    method SetIocache()
      requires Shape() && FramesUsable() && Enough(1)
      modifies this`iocache, ram, pm.mngr, this`free
      ensures Shape() && FramesUsable()
      ensures Holds(CacheMade(old(ram[..]), old(free), ram[..], free, iocache, IO_START, IO_END))
    {
      var io := NewCache(IO_START, IO_END);
      ghost var m := ram[..];
      iocache := io;
      assert ram[..] == m;
    }

    /** One cache: a frame with its bounds set. */
    method NewCache(base: Word, limit: Word) returns (cache: Word)
      requires Shape() && FramesUsable() && Enough(1)
      modifies ram, pm.mngr, this`free
      ensures Shape() && FramesUsable()
      ensures Holds(CacheMade(old(ram[..]), old(free), ram[..], free, cache, base, limit))
    {
      var pa := Alloc();
      cache := P2KH(pa);
      NullKernel(pa);
      if cache != P2KH(0) {
        ram[FrameOf(cache)] := ram[FrameOf(cache)][CACHE_BASE := base][CACHE_LIMIT := limit];
      }
    }
  }
}
