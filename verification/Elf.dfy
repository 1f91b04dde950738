/** elf_map_sections: loading an image into an address space. */
module Elf {
  import opened Words
  import opened Pm
  import opened Paging
  import opened Mapping
  import opened UserMaps
  import opened Bytes
  import opened Loading
  import opened Vm

  /** memcpy of n bytes of c from `offset` to the same offset of frame f. */
  method CopyBytes(vm: AddressSpaces, f: nat, c: seq<Byte>, offset: nat, n: nat)
    requires vm.Shape() && f < NF && offset + n <= 4096 && offset + n <= |c|
    modifies vm.ram
    ensures vm.ram[..] == old(vm.ram[..])[f := vm.ram[f]]
    ensures forall k :: offset <= k < offset + n ==> FrameByte(vm.ram[f], k) == c[k]
    ensures forall k :: 0 <= k < 4096 && !(offset <= k < offset + n) ==>
              FrameByte(vm.ram[f], k) == old(FrameByte(vm.ram[f], k))
  {
    var i := offset;
    while i < offset + n
      invariant offset <= i <= offset + n
      invariant vm.ram[..] == old(vm.ram[..])[f := vm.ram[f]]
      invariant forall k :: offset <= k < i ==> FrameByte(vm.ram[f], k) == c[k]
      invariant forall k :: 0 <= k < 4096 && !(offset <= k < i) ==>
                  FrameByte(vm.ram[f], k) == old(FrameByte(vm.ram[f], k))
    {
      vm.ram[f] := SetFrameByte(vm.ram[f], i, c[i]);
      i := i + 1;
    }
  }

  /** pm_alloc_frame, seen by an address space. */
  method TakeFrame(vm: AddressSpaces) returns (pg: Word, ghost f: nat)
    requires vm.Shape() && Holds(Paging.Valid(vm.Now())) && vm.Enough(1)
    modifies vm.pm.mngr, vm`free
    ensures vm.Shape()
    ensures pg == 0 ==> vm.Now() == old(vm.Now()) && vm.free == {}
    ensures pg != 0 ==> f < NF && pg == 4096 * f && FrameOf(P2KH(pg)) == f && P2KH(pg) != 0
                        && Holds(Taken(old(vm.Now()), vm.Now(), f))
  {
    f := if vm.free == {} then 0 else Least(vm.free);
    pg := vm.Alloc();
  }

  /** vm_map_page with user flags and without a cache */
  method MapUser(vm: AddressSpaces, pdir: Word, pa: Word, va: Word) returns (rc: int)
    requires vm.Shape() && Inv(vm.Now()) && pdir % 4096 == 0 && FrameOf(pdir) in vm.dirs && vm.Enough(1)
    modifies vm.ram, vm.pm.mngr, vm`free, vm`slot
    ensures vm.Shape()
    ensures Holds(MapPageResult(old(vm.Now()), vm.Now(), FrameOf(pdir), va, Entry(PageBase(pa), UserFlags()),
                                UserFlags(), 0, rc))
  {
    CanMapUser(vm.Now(), FrameOf(pdir), va);
    assert CacheFrame(0) == 0;
    rc := vm.MapPage(pdir, pa, va, UserFlags(), 0);
  }

  /** memcpy of the segment's bytes into its data frame. */
  method FillFrame(vm: AddressSpaces, f: nat, c: seq<Byte>, g: Segment, i: nat)
    requires vm.Shape() && Roles(vm.Now()) && IsData(vm.Now(), f)
    requires g.Loads() && g.offset + g.filesz <= 4096 && g.offset + g.filesz <= |c| && i == 0
    modifies vm.ram
    ensures vm.Shape() && Holds(Written(old(vm.Now()), vm.Now(), f)) && Holds(Holding(vm.ram[f], c, g))
  {
    CopyBytes(vm, f, c, g.offset + i, ToCopy(g, i));
  }

  /** One pass of the page loop: allocate, copy, map. In a single-page image the
      only pass is the one at i = 0. */
  method LoadPage(vm: AddressSpaces, pdir: Word, c: seq<Byte>, g: Segment, i: nat)
    returns (rc: int, ghost s1: Snap, ghost s2: Snap, ghost f: nat, ghost pte: Word)
    requires vm.Shape() && Holds(Paging.Valid(vm.Now())) && vm.Enough(2)
    requires pdir % 4096 == 0 && FrameOf(pdir) in vm.dirs
    requires g.Loads() && g.offset + g.filesz <= 4096 && g.offset + g.filesz <= |c| && i == 0 && g.vaddr < KHALF
    modifies vm.ram, vm.pm.mngr, vm`free, vm`slot
    ensures vm.Shape()
    ensures rc == 0 ==> Holds(Loads(old(vm.Now()), s1, s2, vm.Now(), FrameOf(pdir), c, g, f, pte))
    ensures rc != 0 ==>
      Holds(Kept(old(vm.Now()), vm.Now(), FrameOf(pdir))) && Holds(DirsSame(old(vm.Now()), vm.Now())) && vm.free == {}
  {
    ghost var s, d := vm.Now(), FrameOf(pdir);
    s1, s2, pte := s, s, 0;
    var pg;
    pg, f := TakeFrame(vm);
    if pg == 0 {
      assert DirsSame(s, s);
      rc := 1;
      return;
    }
    s1 := vm.Now();
    TakenKeeps(s, s1, f);
    FillFrame(vm, FrameOf(P2KH(pg)), c, g, i);
    s2 := vm.Now();
    WrittenKeeps(s1, s2, f);
    assert Holds(Holding(s2.mem[f], c, g));
    pte := Entry(PageBase(pg), UserFlags());
    var va := VirtualAt(g.vaddr, i);
    FirstPage(g.vaddr);
    rc := MapUser(vm, pdir, pg, va);
    PageLoaded(s, s1, s2, vm.Now(), d, c, g, f, pg, va, pte, rc);
  }

  /** The pass of the page loop that takes the state past header n. */
  method LoadSegmentPage(vm: AddressSpaces, pdir: Word, c: seq<Byte>, ghost s0: Snap, ghost n: nat, eph: Segment,
                         i: nat)
    returns (rc: int)
    requires vm.Shape() && SinglePage(c) && n < PhNum(c) && eph == Seg(c, n) && eph.Loads() && vm.Enough(2)
    requires eph.offset + eph.filesz <= 4096 && eph.offset + eph.filesz <= |c|
    requires pdir % 4096 == 0 && FrameOf(pdir) in vm.dirs && i == 0 && eph.vaddr < KHALF
    requires Holds(LoadState(s0, vm.Now(), FrameOf(pdir), c, n))
    modifies vm.ram, vm.pm.mngr, vm`free, vm`slot
    ensures vm.Shape()
    ensures rc == 0 ==> Holds(LoadState(s0, vm.Now(), FrameOf(pdir), c, n + 1))
    ensures rc != 0 ==> Holds(LoadFailed(s0, vm.Now(), FrameOf(pdir), c))
  {
    ghost var s := vm.Now();
    ghost var s1, s2, f, pte;
    rc, s1, s2, f, pte := LoadPage(vm, pdir, c, eph, i);
    if rc == 0 {
      LoadStep(s0, s, s1, s2, vm.Now(), FrameOf(pdir), c, n, eph, f, pte);
    } else {
      LoadFails(s0, s, vm.Now(), FrameOf(pdir), c, n);
    }
  }

  /** The page loop of elf_map_sections for the segment at header n. */
  method LoadSegment(vm: AddressSpaces, pdir: Word, c: seq<Byte>, ghost s0: Snap, n: nat, eph: Segment)
    returns (rc: int)
    requires vm.Shape() && SinglePage(c) && n < PhNum(c) && eph == Seg(c, n) && vm.Enough(2)
    requires pdir % 4096 == 0 && FrameOf(pdir) in vm.dirs && eph.ptype == PT_LOAD
    requires Holds(LoadState(s0, vm.Now(), FrameOf(pdir), c, n))
    modifies vm.ram, vm.pm.mngr, vm`free, vm`slot
    ensures vm.Shape()
    ensures rc == 0 ==> Holds(LoadState(s0, vm.Now(), FrameOf(pdir), c, n + 1))
    ensures rc != 0 ==> rc == 1 && Holds(LoadFailed(s0, vm.Now(), FrameOf(pdir), c))
  {
    ghost var d, s := FrameOf(pdir), vm.Now();
    var i := 0;
    SegmentBound(c, n, eph);
    if eph.filesz == 0 {
      LoadSkip(s0, s, d, c, n);
    }
    while i < eph.filesz
      invariant vm.Shape() && (i == 0 || (i == 4096 && eph.filesz <= 4096))
      invariant i == 0 && eph.filesz > 0 ==> vm.Now() == s
      invariant i != 0 || eph.filesz == 0 ==> Holds(LoadState(s0, vm.Now(), d, c, n + 1))
      decreases eph.filesz - i
    {
      assert i == 0 && eph.Loads();
      FirstPage(eph.vaddr);
      if VirtualAt(eph.vaddr, i) >= KHALF {
        TooHigh(s0, s, d, c, n, eph);
        return 1;
      }
      rc := LoadSegmentPage(vm, pdir, c, s0, n, eph, i);
      if rc != 0 {
        return 1;
      }
      i := i + 4096;
    }
    rc := 0;
  }

  /** One program header */
  method LoadHeader(vm: AddressSpaces, pdir: Word, c: seq<Byte>, ghost s0: Snap, n: nat, eph: Segment)
    returns (rc: int)
    requires vm.Shape() && SinglePage(c) && n < PhNum(c) && eph == Seg(c, n)
    requires vm.high == {} || |s0.free| >= 2 * PhNum(c)
    requires pdir % 4096 == 0 && FrameOf(pdir) in vm.dirs
    requires Holds(LoadState(s0, vm.Now(), FrameOf(pdir), c, n))
    modifies vm.ram, vm.pm.mngr, vm`free, vm`slot
    ensures vm.Shape()
    ensures rc == 0 ==> Holds(LoadState(s0, vm.Now(), FrameOf(pdir), c, n + 1))
    ensures rc != 0 ==> rc == 1 && Holds(LoadFailed(s0, vm.Now(), FrameOf(pdir), c))
  {
    rc := 0;
    if eph.ptype == PT_LOAD {
      FramesForSegment(s0, vm.Now(), FrameOf(pdir), c, n, vm.high == {});
      rc := LoadSegment(vm, pdir, c, s0, n, eph);
    } else {
      LoadSkip(s0, vm.Now(), FrameOf(pdir), c, n);
    }
  }

  /** elf_map_sections. On success the state is that of LoadState, whose meaning
      is LoadedBytes; either way the kernel half of the directory and all data
      that was in memory before are untouched. */
  method MapSections(vm: AddressSpaces, pdir: Word, c: seq<Byte>) returns (rc: int)
    requires vm.Shape() && Holds(Paging.Valid(vm.Now())) && SinglePage(c) && vm.Enough(2 * PhNum(c))
    requires pdir % 4096 == 0 && FrameOf(pdir) in vm.dirs
    modifies vm.ram, vm.pm.mngr, vm`free, vm`slot
    ensures vm.Shape()
    ensures rc == 0 ==> Holds(LoadState(old(vm.Now()), vm.Now(), FrameOf(pdir), c, PhNum(c)))
    ensures rc != 0 ==> rc == 1 && Holds(LoadFailed(old(vm.Now()), vm.Now(), FrameOf(pdir), c))
  {
    ghost var s0, d := vm.Now(), FrameOf(pdir);
    var pnum := 0;
    var phoff := PhOff(c);
    FirstHeader(s0, d, c);
    while pnum < PhNum(c)
      invariant vm.Shape() && 0 <= pnum <= PhNum(c) && AtHeader(c, pnum, phoff)
      invariant Sealed(LoadState(s0, vm.Now(), d, c, pnum))
    {
      rc, phoff := LoadNext(vm, pdir, c, s0, pnum, phoff);
      if rc != 0 {
        Unseal(LoadFailed(s0, vm.Now(), d, c));
        return 1;
      }
      pnum := pnum + 1;
    }
    Unseal(LoadState(s0, vm.Now(), d, c, pnum));
    rc := 0;
  }

  /** The loop over the headers has come to header n, at phoff. */
  ghost predicate AtHeader(c: seq<Byte>, n: nat, phoff: Word) {
    forall i {:trigger LookAt(i, n)} :: LookAt(i, n) ==>
      |c| >= 52 && (n < PhNum(c) ==> phoff == Header(c, n))
  }

  lemma FirstHeader(s: Snap, d: nat, c: seq<Byte>)
    requires Holds(Paging.Valid(s)) && d in s.dirs && SinglePage(c)
    ensures AtHeader(c, 0, PhOff(c)) && Sealed(LoadState(s, s, d, c, 0))
  {
    LoadStart(s, d, c);
  }

  /** One pass: header n, and where the next one is */
  method LoadNext(vm: AddressSpaces, pdir: Word, c: seq<Byte>, ghost s0: Snap, n: nat, phoff: Word)
    returns (rc: int, next: Word)
    requires vm.Shape() && SinglePage(c) && n < PhNum(c) && AtHeader(c, n, phoff)
    requires vm.high == {} || |s0.free| >= 2 * PhNum(c)
    requires pdir % 4096 == 0 && Sealed(LoadState(s0, vm.Now(), FrameOf(pdir), c, n))
    modifies vm.ram, vm.pm.mngr, vm`free, vm`slot
    ensures vm.Shape()
    ensures rc == 0 ==> Sealed(LoadState(s0, vm.Now(), FrameOf(pdir), c, n + 1)) && AtHeader(c, n + 1, next)
    ensures rc != 0 ==> rc == 1 && Sealed(LoadFailed(s0, vm.Now(), FrameOf(pdir), c))
  {
    Unseal(LoadState(s0, vm.Now(), FrameOf(pdir), c, n));
    HeaderAt(c, n, phoff);
    var eph := SegmentAt(c, phoff);
    rc := LoadHeader(vm, pdir, c, s0, n, eph);
    next := NextPh(c, phoff);
  }

  lemma HeaderAt(c: seq<Byte>, n: nat, phoff: Word)
    requires SinglePage(c) && n < PhNum(c) && AtHeader(c, n, phoff)
    ensures phoff == Header(c, n) && phoff + 32 <= |c| && AtHeader(c, n + 1, NextPh(c, phoff))
  {
    assert LookAt(0, n);
    NextHeader(c, n, phoff);
  }

  /** p_vaddr + i, on 32 bits */
  function VirtualAt(va: Word, i: nat): Word {
    (va + i) % 0x1_0000_0000
  }

  lemma FirstPage(va: Word)
    ensures VirtualAt(va, 0) == va
  {
  }

  lemma SegmentBound(c: seq<Byte>, n: nat, g: Segment)
    requires SinglePage(c) && n < PhNum(c) && g == Seg(c, n)
    ensures g.Loads() ==> g.offset + g.filesz <= 4096 && g.offset + g.filesz <= |c|
  {
  }

  lemma TooHigh(s0: Snap, s: Snap, d: nat, c: seq<Byte>, n: nat, g: Segment)
    requires Holds(LoadState(s0, s, d, c, n)) && n < PhNum(c) && g == Seg(c, n) && g.Loads() && g.vaddr >= KHALF
    ensures Holds(LoadFailed(s0, s, d, c))
  {
    LoadStateOldOrFresh(s0, s, d, c, n);
    assert !(Seg(c, n).Loads() ==> Seg(c, n).vaddr < KHALF);
  }

  /** phoff + e_phentsize */
  function NextPh(c: seq<Byte>, phoff: Word): Word
    requires |c| >= 52
  {
    (phoff + PhEntSize(c)) % 0x1_0000_0000
  }

  lemma NextHeader(c: seq<Byte>, n: nat, phoff: Word)
    requires SinglePage(c) && n < PhNum(c) && phoff == Header(c, n)
    ensures n + 1 < PhNum(c) ==> NextPh(c, phoff) == Header(c, n + 1)
  {
    if n + 1 < PhNum(c) {
      assert Header(c, n + 1) + 32 <= |c|;
    }
  }
}
