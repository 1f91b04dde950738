/** The physical frame allocator (pm.c): a bitmap of 2^20 frames, one bit a
    frame, set when the frame is locked. */
module Pm {
  import opened Words

  const MNGR_SIZE: nat := 0x8000
  const NFRAMES: nat := 0x10_0000

  /** The least element of a non-empty set of frames. */
  ghost function Least(s: set<nat>): (m: nat)
    requires s != {}
    ensures m in s && forall x :: x in s ==> m <= x
  {
    LeastExists(s);
    var m :| m in s && forall x :: x in s ==> m <= x;
    m
  }

  lemma {:induction false} LeastExists(s: set<nat>)
    requires s != {}
    ensures exists m :: m in s && forall x :: x in s ==> m <= x
  {
    var a :| a in s;
    LeastFrom(s, 0, a);
  }

  lemma {:induction false} LeastFrom(s: set<nat>, n: nat, a: nat)
    requires n <= a && a in s && forall x :: x in s ==> n <= x
    ensures exists m :: m in s && forall x :: x in s ==> m <= x
    decreases a - n
  {
    if n !in s { LeastFrom(s, n + 1, a); }
  }

  /** The least element lies in a part that all others are above of. */
  lemma LeastOfPart(s: set<nat>, part: set<nat>, bound: nat)
    requires part != {} && part <= s && forall x :: x in s ==> (x in part <==> x < bound)
    ensures Least(s) == Least(part)
  {
  }

  const MULTIBOOT_INFO_MEM_MAP: nat := 0x40
  const MULTIBOOT_MEMORY_AVAILABLE: nat := 1

  datatype MultibootInfo = MultibootInfo(flags: Word, memUpper: Word, mmapLength: Word, mmapAddr: Word) {
    /** flags & MULTIBOOT_INFO_MEM_MAP */
    predicate HasMap() {
      (flags / MULTIBOOT_INFO_MEM_MAP) % 2 == 1
    }

    function MapEnd(): Word {
      (mmapAddr + mmapLength) % 0x1_0000_0000
    }
  }

  /** The address inside frame f that a walk in page steps from addr visits. */
  function Start(addr: nat, f: nat): nat {
    4096 * f + addr % 4096
  }

  /** A walk in page steps from addr, ending before `end`, visits frame f. */
  predicate Touches(addr: nat, end: nat, f: nat) {
    addr <= Start(addr, f) < end
  }

  /** `for (start = addr; start < end; start += 4096)` ends on 32-bit words. */
  predicate StepsTerminate(addr: Word, end: Word) {
    addr < end ==> end <= 0xFFFF_F000 + addr % 4096
  }

  /** The addresses of the memory-map entries below `end`, first to last. */
  function Entries(read: Word -> Word, mmap: nat, end: Word): seq<Word>
    decreases end - mmap
  {
    if mmap >= end then [] else [mmap] + Entries(read, mmap + read(mmap) + 4, end)
  }

  /** (unsigned) mmap + mmap->size + sizeof(mmap->size) */
  function NextMmap(read: Word -> Word, mmap: Word): Word {
    (mmap + read(mmap) + 4) % 0x1_0000_0000
  }

  /** Stepping from entry to entry never wraps, and every region walk ends. */
  predicate MapTerminates(read: Word -> Word, mmap: Word, end: Word) {
    forall e :: e in Entries(read, mmap, end) ==>
      e + read(e) + 4 < 0x1_0000_0000 &&
      (Available(read, e) ==> StepsTerminate(Addr(read, e), Len(read, e)))
  }

  predicate Available(read: Word -> Word, e: Word) {
    read((e + 20) % 0x1_0000_0000) == MULTIBOOT_MEMORY_AVAILABLE
  }

  function Addr(read: Word -> Word, e: Word): Word {
    read((e + 4) % 0x1_0000_0000)
  }

  function Len(read: Word -> Word, e: Word): Word {
    read((e + 12) % 0x1_0000_0000)
  }

  predicate EntryFrees(read: Word -> Word, e: Word, ekernel: Word, f: nat) {
    Available(read, e) && Touches(Addr(read, e), Len(read, e), f) && ekernel < Start(Addr(read, e), f)
  }

  predicate SomeFrees(read: Word -> Word, entries: seq<Word>, ekernel: Word, f: nat) {
    exists i :: 0 <= i < |entries| && EntryFrees(read, entries[i], ekernel, f)
  }

  // ----------------------------------------------------- a map as it is written

  /** struct multiboot_mmap_entry */
  datatype Region = Region(size: Word, addr: Word, addr0: Word, len: Word, len0: Word, kind: Word) {
    /** Its words, in order */
    function Fields(): (w: seq<Word>)
      ensures |w| == 6
    {
      [size, addr, addr0, len, len0, kind]
    }

    /** The boot code frees frame f for this region: an address that its walk in
        page steps visits lies in f and past the kernel. */
    ghost predicate Frees(ekernel: Word, f: nat) {
      kind == 1 && exists k: nat :: VisitsAt(addr, len, k, f) && ekernel < addr + k * 4096
    }
  }

  /** The k-th address of a page walk from addr lies before `end` and in frame f. */
  predicate VisitsAt(addr: nat, end: nat, k: nat, f: nat) {
    addr + k * 4096 < end && f == (addr + k * 4096) / 4096
  }

  ghost predicate Visits(addr: nat, end: nat, f: nat) {
    exists k: nat :: VisitsAt(addr, end, k, f)
  }

  /** The regions are written from address `at` to `end`, the size field of each
      counting the bytes behind it. */
  predicate MapWritten(read: Word -> Word, at: nat, end: nat, rs: seq<Region>)
    decreases |rs|
  {
    if rs == [] then at == end
    else
      && at < end && RegionWritten(read, at, rs[0])
      && MapWritten(read, at + rs[0].size + 4, end, rs[1..])
  }

  predicate RegionWritten(read: Word -> Word, at: nat, r: Region) {
    forall i :: 0 <= i < 6 ==> read((at + 4 * i) % 0x1_0000_0000) == r.Fields()[i]
  }

  ghost predicate RegionsFree(rs: seq<Region>, ekernel: Word, f: nat) {
    exists i :: 0 <= i < |rs| && rs[i].Frees(ekernel, f)
  }

  lemma TouchesIff(addr: nat, end: nat, f: nat)
    ensures Touches(addr, end, f) <==> Visits(addr, end, f)
    ensures Visits(addr, end, f) ==> exists k: nat :: VisitsAt(addr, end, k, f) && addr + k * 4096 == Start(addr, f)
  {
    if Touches(addr, end, f) {
      var k: nat := (Start(addr, f) - addr) / 4096;
      assert addr + k * 4096 == Start(addr, f);
      assert VisitsAt(addr, end, k, f);
    }
    forall k: nat | VisitsAt(addr, end, k, f) ensures addr + k * 4096 == Start(addr, f) {
      SameOffset(addr, k, f);
    }
  }

  lemma SameOffset(addr: nat, k: nat, f: nat)
    requires f == (addr + k * 4096) / 4096
    ensures addr + k * 4096 == Start(addr, f)
  {
    assert (addr + k * 4096) % 4096 == addr % 4096;
  }

  lemma RegionFreesIff(read: Word -> Word, e: Word, r: Region, ekernel: Word, f: nat)
    requires RegionWritten(read, e, r)
    ensures EntryFrees(read, e, ekernel, f) <==> r.Frees(ekernel, f)
  {
    RegionWords(read, e, r);
    TouchesIff(r.addr, r.len, f);
    forall k: nat | VisitsAt(r.addr, r.len, k, f) ensures r.addr + k * 4096 == Start(r.addr, f) {
      SameOffset(r.addr, k, f);
    }
  }

  /** The entries that the walk meets are the regions, one for one. */
  lemma {:induction false} EntriesAreRegions(read: Word -> Word, at: nat, end: Word, rs: seq<Region>)
    requires MapWritten(read, at, end, rs)
    ensures |Entries(read, at, end)| == |rs|
    ensures forall i :: 0 <= i < |rs| ==> RegionWritten(read, Entries(read, at, end)[i], rs[i])
    ensures forall i :: 0 <= i < |rs| ==> Entries(read, at, end)[i] + rs[i].size + 4 <= end
    decreases |rs|
  {
    if rs != [] {
      assert read((at + 4 * 0) % 0x1_0000_0000) == rs[0].Fields()[0];
      EntriesAreRegions(read, at + rs[0].size + 4, end, rs[1..]);
      WithinMap(read, at + rs[0].size + 4, end, rs[1..]);
      assert Entries(read, at, end) == [at] + Entries(read, at + rs[0].size + 4, end);
      OneRegionMore(read, at, Entries(read, at + rs[0].size + 4, end), rs, end);
    }
  }

  lemma OneRegionMore(read: Word -> Word, e: Word, es: seq<Word>, rs: seq<Region>, end: Word)
    requires |rs| == |es| + 1 && RegionWritten(read, e, rs[0]) && e + rs[0].size + 4 <= end
    requires forall i :: 0 <= i < |es| ==> RegionWritten(read, es[i], rs[1..][i]) && es[i] + rs[1..][i].size + 4 <= end
    ensures forall i :: 0 <= i < |rs| ==> RegionWritten(read, ([e] + es)[i], rs[i])
    ensures forall i :: 0 <= i < |rs| ==> ([e] + es)[i] + rs[i].size + 4 <= end
  {
    forall i | 0 <= i < |rs|
      ensures RegionWritten(read, ([e] + es)[i], rs[i]) && ([e] + es)[i] + rs[i].size + 4 <= end
    {
      if i > 0 { assert rs[1..][i - 1] == rs[i] && ([e] + es)[i] == es[i - 1]; }
    }
  }

  lemma WithinMap(read: Word -> Word, at: nat, end: nat, rs: seq<Region>)
    requires MapWritten(read, at, end, rs)
    ensures at <= end
  {
  }

  /** What the walk over a written map frees is what its regions free. */
  lemma WrittenMapFrees(read: Word -> Word, at: nat, end: Word, rs: seq<Region>, ekernel: Word, f: nat)
    requires MapWritten(read, at, end, rs)
    ensures SomeFrees(read, Entries(read, at, end), ekernel, f) <==> RegionsFree(rs, ekernel, f)
  {
    EntriesAreRegions(read, at, end, rs);
    forall i | 0 <= i < |rs|
      ensures EntryFrees(read, Entries(read, at, end)[i], ekernel, f) <==> rs[i].Frees(ekernel, f)
    {
      RegionFreesIff(read, Entries(read, at, end)[i], rs[i], ekernel, f);
    }
  }

  /** A written map can be walked if the page walks of its regions end. */
  lemma WrittenMapTerminates(read: Word -> Word, at: Word, end: Word, rs: seq<Region>)
    requires MapWritten(read, at, end, rs)
    requires forall r :: r in rs && r.kind == 1 ==> StepsTerminate(r.addr, r.len)
    ensures MapTerminates(read, at, end)
  {
    EntriesAreRegions(read, at, end, rs);
    forall e | e in Entries(read, at, end)
      ensures e + read(e) + 4 < 0x1_0000_0000 && (Available(read, e) ==> StepsTerminate(Addr(read, e), Len(read, e)))
    {
      var i :| 0 <= i < |rs| && Entries(read, at, end)[i] == e;
      RegionWords(read, e, rs[i]);
      assert rs[i] in rs;
    }
  }

  lemma RegionWords(read: Word -> Word, e: Word, r: Region)
    requires RegionWritten(read, e, r)
    ensures read(e) == r.size && Addr(read, e) == r.addr && Len(read, e) == r.len
    ensures Available(read, e) <==> r.kind == 1
  {
    assert read((e + 4 * 0) % 0x1_0000_0000) == r.Fields()[0];
    assert read((e + 4 * 1) % 0x1_0000_0000) == r.Fields()[1];
    assert read((e + 4 * 3) % 0x1_0000_0000) == r.Fields()[3];
    assert read((e + 4 * 5) % 0x1_0000_0000) == r.Fields()[5];
  }

  /** A walk that has seen `seen` and stands at `mmap` has the rest to see. */
  predicate Walked(read: Word -> Word, start: Word, end: Word, seen: seq<Word>, mmap: Word) {
    Entries(read, start, end) == seen + Entries(read, mmap, end)
  }

  /** Moving on to the next entry of the map neither wraps nor skips one. */
  lemma NextEntry(read: Word -> Word, start: Word, end: Word, seen: seq<Word>, mmap: Word)
    requires MapTerminates(read, start, end) && mmap < end && Walked(read, start, end, seen, mmap)
    ensures mmap < NextMmap(read, mmap)
    ensures Available(read, mmap) ==> StepsTerminate(Addr(read, mmap), Len(read, mmap))
    ensures Walked(read, start, end, seen + [mmap], NextMmap(read, mmap))
  {
    assert Entries(read, start, end)[|seen|] == mmap;
    WalkedStep(seen, mmap, Entries(read, NextMmap(read, mmap), end));
  }

  lemma WalkedStep(seen: seq<Word>, mmap: Word, rest: seq<Word>)
    ensures seen + ([mmap] + rest) == seen + [mmap] + rest
  {
  }

  /** `free` holds exactly the frames that the entries of the map free. */
  ghost predicate FreedBy(free: set<nat>, read: Word -> Word, entries: seq<Word>, ekernel: Word) {
    forall f: nat :: f in free <==> f < NFRAMES && SomeFrees(read, entries, ekernel, f)
  }

  /** `free` holds exactly the frames that the regions free. */
  ghost predicate FreedFor(free: set<nat>, rs: seq<Region>, ekernel: Word) {
    forall f: nat :: f in free <==> f < NFRAMES && RegionsFree(rs, ekernel, f)
  }

  lemma HasMapIff(mbi: MultibootInfo)
    ensures mbi.HasMap() <==> Bit(mbi.flags, 6)
  {
    var w: nat := mbi.flags;
    assert Bit(w, 6) == Bit(w / 2 / 2, 4) == Bit(w / 2 / 2 / 2 / 2, 2) == Bit(w / 2 / 2 / 2 / 2 / 2 / 2, 0);
    assert w / 2 / 2 / 2 / 2 / 2 / 2 == w / 64;
  }

  lemma MapFreed(free: set<nat>, read: Word -> Word, mbi: MultibootInfo, ekernel: Word)
    requires FreedBy(free, read, Entries(read, mbi.mmapAddr, (mbi.mmapAddr + mbi.mmapLength) % 0x1_0000_0000), ekernel)
    ensures forall rs ::
      MapWritten(read, mbi.mmapAddr, mbi.mmapAddr + mbi.mmapLength, rs) && mbi.mmapAddr + mbi.mmapLength < 0x1_0000_0000
      ==> FreedFor(free, rs, ekernel)
  {
    var end := mbi.mmapAddr + mbi.mmapLength;
    forall rs | MapWritten(read, mbi.mmapAddr, end, rs) && end < 0x1_0000_0000
      ensures FreedFor(free, rs, ekernel)
    {
      forall f: nat ensures f in free <==> f < NFRAMES && RegionsFree(rs, ekernel, f) {
        WrittenMapFrees(read, mbi.mmapAddr, end, rs, ekernel, f);
      }
    }
  }

  lemma UpperFreed(free: set<nat>, ekernel: Word, memUpper: Word)
    requires forall f: nat :: f in free <==> f < NFRAMES && Touches(ekernel, memUpper, f)
    ensures forall f: nat :: f in free <==> f < NFRAMES && Visits(ekernel, memUpper, f)
  {
    forall f: nat ensures Touches(ekernel, memUpper, f) <==> Visits(ekernel, memUpper, f) {
      TouchesIff(ekernel, memUpper, f);
    }
  }

  lemma FreedBySnoc(before: set<nat>, after: set<nat>, read: Word -> Word, entries: seq<Word>, e: Word, ekernel: Word)
    requires FreedBy(before, read, entries, ekernel)
    requires forall f: nat :: f in after <==> f in before || (f < NFRAMES && EntryFrees(read, e, ekernel, f))
    ensures FreedBy(after, read, entries + [e], ekernel)
  {
    var s := entries + [e];
    forall f: nat
      ensures SomeFrees(read, s, ekernel, f)
          <==> SomeFrees(read, entries, ekernel, f) || EntryFrees(read, e, ekernel, f)
    {
      if SomeFrees(read, entries, ekernel, f) {
        var i :| 0 <= i < |entries| && EntryFrees(read, entries[i], ekernel, f);
        assert s[i] == entries[i];
      }
      if EntryFrees(read, e, ekernel, f) {
        assert s[|entries|] == e;
      }
    }
  }

  /** start += 4096 on 32 bits */
  function NextStart(start: Word): Word {
    (start + 4096) % 0x1_0000_0000
  }

  /** A walk from addr to `end` stands at `start`: besides those of `was`, the
      frames it has visited above `above` are free. */
  ghost predicate UpTo(was: set<nat>, free: set<nat>, addr: Word, start: Word, end: Word, above: int) {
    && addr <= start && start % 4096 == addr % 4096
    && forall f: nat :: f in free <==>
         f in was || (f < NFRAMES && Touches(addr, start, f) && Touches(addr, end, f) && above < Start(addr, f))
  }

  lemma UpToStart(was: set<nat>, addr: Word, end: Word, above: int)
    ensures Sealed(UpTo(was, was, addr, addr, end, above))
  {
  }

  lemma UpToStep(was: set<nat>, free: set<nat>, free': set<nat>, addr: Word, start: Word, end: Word, above: int)
    requires StepsTerminate(addr, end) && start < end && Sealed(UpTo(was, free, addr, start, end, above))
    requires free' == if above < start then free + {start / 4096} else free
    ensures start < NextStart(start) && Sealed(UpTo(was, free', addr, NextStart(start), end, above))
  {
    Unseal(UpTo(was, free, addr, start, end, above));
    NextVisits(addr, start, end);
    forall f: nat
      ensures f in free' <==> f in was || (f < NFRAMES && Touches(addr, NextStart(start), f) && Touches(addr, end, f)
                                           && above < Start(addr, f))
    {
      assert f == start / 4096 ==> Start(addr, f) == start;
    }
  }

  /** One page step visits exactly one frame more. */
  lemma NextVisits(addr: Word, start: Word, end: Word)
    requires StepsTerminate(addr, end) && addr <= start < end && start % 4096 == addr % 4096
    ensures NextStart(start) == start + 4096 && NextStart(start) % 4096 == addr % 4096
    ensures start / 4096 < NFRAMES && Start(addr, start / 4096) == start
    ensures forall f: nat :: Touches(addr, NextStart(start), f) <==> Touches(addr, start, f) || f == start / 4096
  {
  }

  lemma UpToEnd(was: set<nat>, free: set<nat>, addr: Word, start: Word, end: Word, above: int)
    requires Sealed(UpTo(was, free, addr, start, end, above)) && start >= end
    ensures forall f: nat :: f in free <==>
      f in was || (f < NFRAMES && Touches(addr, end, f) && above < Start(addr, f))
  {
    Unseal(UpTo(was, free, addr, start, end, above));
  }

  /** Outside StepsTerminate the region walk never ends: every address it
      visits, however many 32-bit steps it has taken, is below `end`. */
  lemma StepsDiverge(addr: Word, end: Word, k: nat)
    requires !StepsTerminate(addr, end)
    ensures (addr + k * 4096) % 0x1_0000_0000 < end
  {
    var v := (addr + k * 4096) % 0x1_0000_0000;
    assert v % 4096 == addr % 4096;
  }

  /** Every frame the boot code frees starts at or above the end of the kernel,
      which the linker aligns to a page; so a kernel above page 0 keeps frame 0
      locked. */
  lemma FreedAboveKernel(read: Word -> Word, entries: seq<Word>, ekernel: Word, memUpper: Word, f: nat)
    requires ekernel % 4096 == 0
    requires SomeFrees(read, entries, ekernel, f) || Touches(ekernel, memUpper, f)
    ensures 4096 * f >= ekernel
    ensures ekernel > 0 ==> f != 0
  {
  }

  /** Frame f lies wholly in [addr, end). */
  predicate Inside(addr: nat, end: nat, f: nat) {
    addr <= 4096 * f && 4096 * (f + 1) <= end
  }

  lemma RegionInside(addr: nat, len: nat, f: nat)
    requires addr % 4096 == 0 && len % 4096 == 0 && Touches(addr, len, f)
    ensures Inside(addr, addr + len, f)
  {
  }

  /** With page-aligned regions every freed frame lies wholly inside a region
      [addr, addr + len) the map calls available. */
  lemma FreedInsideAvailable(read: Word -> Word, entries: seq<Word>, ekernel: Word, f: nat) returns (e: Word)
    requires SomeFrees(read, entries, ekernel, f)
    requires forall i :: 0 <= i < |entries| && Available(read, entries[i]) ==>
      Addr(read, entries[i]) % 4096 == 0 && Len(read, entries[i]) % 4096 == 0
    ensures e in entries && Available(read, e)
    ensures Inside(Addr(read, e), Addr(read, e) + Len(read, e), f)
  {
    var i :| 0 <= i < |entries| && EntryFrees(read, entries[i], ekernel, f);
    e := entries[i];
    RegionInside(Addr(read, e), Len(read, e), f);
  }

  class FrameManager {
    const mngr: array<Word>

    ghost predicate Valid()
    {
      mngr.Length == MNGR_SIZE
    }

    ghost predicate IsFree(f: nat)
      requires Valid() && f < NFRAMES
      reads mngr
    {
      !Bit(mngr[f / 32], f % 32)
    }

    /** The abstract value: the set of free frame numbers. */
    ghost function Free(): set<nat>
      requires Valid()
      reads mngr
    {
      set f: nat | 0 <= f < NFRAMES && IsFree(f)
    }

    constructor ()
      ensures Valid() && fresh(mngr)
    {
      mngr := new Word[MNGR_SIZE](_ => 0);
    }

    method LockFrame(where: Word)
      requires Valid()
      modifies mngr
      ensures Free() == old(Free()) - {where / 4096}
    {
      var i := (where / 4096) % 32;
      var w := mngr[where / 0x2_0000];
      OrWord(w, i);
      mngr[where / 0x2_0000] := Or(w, Pow2(i));
      WordAndBit(where);
      forall f: nat | 0 <= f < NFRAMES
        ensures IsFree(f) <==> old(IsFree(f)) && f != where / 4096
      {
        SameFrame(where / 4096, f);
        BitOfOr(w, Pow2(i), f % 32);
        BitOfPow2(i, f % 32);
      }
    }

    method FreeFrame(where: Word)
      requires Valid()
      modifies mngr
      ensures Free() == old(Free()) + {where / 4096}
    {
      var i := (where / 4096) % 32;
      var w := mngr[where / 0x2_0000];
      mngr[where / 0x2_0000] := AndNot(w, Pow2(i));
      WordAndBit(where);
      forall f: nat | 0 <= f < NFRAMES
        ensures IsFree(f) <==> old(IsFree(f)) || f == where / 4096
      {
        SameFrame(where / 4096, f);
        BitOfAndNot(w, Pow2(i), f % 32);
        BitOfPow2(i, f % 32);
      }
    }

    /** First fit: the least free frame is handed out, 0 when there is none. */
    method AllocFrame() returns (pa: Word)
      requires Valid()
      modifies mngr
      ensures old(Free()) == {} ==> pa == 0 && Free() == {}
      ensures old(Free()) != {} ==> pa == 4096 * Least(old(Free()))
                                    && Free() == old(Free()) - {Least(old(Free()))}
    {
      var block := 0;
      while block < MNGR_SIZE
        invariant 0 <= block <= MNGR_SIZE && unchanged(mngr)
        invariant NoneFreeBelow(32 * block)
      {
        if mngr[block] != 0xFFFF_FFFF {
          var frame := 0;
          while frame < 32
            invariant 0 <= frame <= 32 && unchanged(mngr)
            invariant NoneFreeBelow(32 * block + frame)
          {
            if !Bit(mngr[block], frame) {
              LeastFree(32 * block + frame);
              LockFrame((32 * block + frame) * 4096);
              return (32 * block + frame) * 4096;
            }
            NoneFreeStep(32 * block + frame);
            frame := frame + 1;
          }
          NotAllOnes(block);
          assert false;
        }
        AllOnesBlock(block);
        block := block + 1;
      }
      NoneFree();
      pa := 0;
    }

    ghost predicate NoneFreeBelow(n: nat)
      requires Valid() && n <= NFRAMES
      reads mngr
    {
      forall f: nat :: f < n ==> !IsFree(f)
    }

    lemma NoneFreeStep(f: nat)
      requires Valid() && f < NFRAMES && NoneFreeBelow(f) && !IsFree(f)
      ensures NoneFreeBelow(f + 1)
    {
    }

    lemma NoneFree()
      requires Valid() && NoneFreeBelow(NFRAMES)
      ensures Free() == {}
    {
    }

    lemma LeastFree(f: nat)
      requires Valid() && f < NFRAMES && NoneFreeBelow(f) && IsFree(f)
      ensures f in Free() && Least(Free()) == f
    {
      assert f in Free();
      assert Least(Free()) >= f;
    }

    /** A block other than 0xFFFFFFFF has a free frame. */
    lemma NotAllOnes(block: nat)
      requires Valid() && block < MNGR_SIZE && mngr[block] != 0xFFFF_FFFF
      ensures !NoneFreeBelow(32 * block + 32)
    {
      Pow2Values();
      var i := SomeDigitClear(mngr[block], 32);
      assert IsFree(32 * block + i);
    }

    lemma AllOnesBlock(block: nat)
      requires Valid() && block < MNGR_SIZE && mngr[block] == 0xFFFF_FFFF
      requires NoneFreeBelow(32 * block)
      ensures NoneFreeBelow(32 * block + 32)
    {
      forall f: nat | 32 * block <= f < 32 * block + 32 ensures !IsFree(f) {
        Pow2Values();
        AllOnesHasEveryDigit(32, f % 32);
      }
    }

    /** Rebuilds the bitmap from the boot loader's information: everything is
        locked, then the frames of the available regions, or of the memory
        between the kernel and mem_upper, are freed. `read` gives the 32-bit
        word at any address of the boot loader's tables. */
    method Init(mbi: MultibootInfo, read: Word -> Word, ekernel: Word)
      requires Valid()
      requires Bit(mbi.flags, 6) ==>
        MapTerminates(read, mbi.mmapAddr, (mbi.mmapAddr + mbi.mmapLength) % 0x1_0000_0000)
      requires !Bit(mbi.flags, 6) ==> StepsTerminate(ekernel, mbi.memUpper)
      modifies mngr
      ensures Bit(mbi.flags, 6) ==>
        FreedBy(Free(), read, Entries(read, mbi.mmapAddr, (mbi.mmapAddr + mbi.mmapLength) % 0x1_0000_0000), ekernel)
      ensures Bit(mbi.flags, 6) ==>
        forall rs ::
          MapWritten(read, mbi.mmapAddr, mbi.mmapAddr + mbi.mmapLength, rs)
          && mbi.mmapAddr + mbi.mmapLength < 0x1_0000_0000
          ==> FreedFor(Free(), rs, ekernel)
      ensures !Bit(mbi.flags, 6) ==>
        forall f: nat :: f in Free() <==> f < NFRAMES && Visits(ekernel, mbi.memUpper, f)
    {
      LockAll();
      HasMapIff(mbi);
      if mbi.HasMap() {
        FreeMap(mbi, read, ekernel);
        MapFreed(Free(), read, mbi, ekernel);
      } else {
        FreeUpper(mbi.memUpper, ekernel);
        UpperFreed(Free(), ekernel, mbi.memUpper);
      }
    }

    /** The branch without a memory map. */
    method FreeUpper(memUpper: Word, ekernel: Word)
      requires Valid() && Free() == {} && StepsTerminate(ekernel, memUpper)
      modifies mngr
      ensures forall f: nat :: f in Free() <==> f < NFRAMES && Touches(ekernel, memUpper, f)
    {
      var start: Word := ekernel;
      UpToStart(Free(), ekernel, memUpper, -1);
      while start < memUpper
        invariant Sealed(UpTo({}, Free(), ekernel, start, memUpper, -1))
        decreases memUpper - start
      {
        ghost var before := Free();
        FreeFrame(start);
        UpToStep({}, before, Free(), ekernel, start, memUpper, -1);
        start := NextStart(start);
      }
      UpToEnd({}, Free(), ekernel, start, memUpper, -1);
    }

    /** memset(pm_mngr, 0xFF, sizeof pm_mngr) */
    method LockAll()
      requires Valid()
      modifies mngr
      ensures Free() == {}
    {
      forall i | 0 <= i < MNGR_SIZE { mngr[i] := 0xFFFF_FFFF; }
      forall f: nat | 0 <= f < NFRAMES ensures !IsFree(f) {
        Pow2Values();
        AllOnesHasEveryDigit(32, f % 32);
      }
    }

    /** The outer loop of the memory-map branch. */
    method FreeMap(mbi: MultibootInfo, read: Word -> Word, ekernel: Word)
      requires Valid() && Free() == {}
      requires MapTerminates(read, mbi.mmapAddr, (mbi.mmapAddr + mbi.mmapLength) % 0x1_0000_0000)
      modifies mngr
      ensures FreedBy(Free(), read, Entries(read, mbi.mmapAddr, (mbi.mmapAddr + mbi.mmapLength) % 0x1_0000_0000),
                      ekernel)
    {
      ghost var seen: seq<Word> := [];
      var mmap: Word := mbi.mmapAddr;
      var end := mbi.MapEnd();
      while mmap < end
        invariant Walked(read, mbi.mmapAddr, end, seen, mmap)
        invariant FreedBy(Free(), read, seen, ekernel)
        decreases end - mmap
      {
        NextEntry(read, mbi.mmapAddr, end, seen, mmap);
        ghost var before := Free();
        FreeEntry(read, mmap, ekernel);
        FreedBySnoc(before, Free(), read, seen, mmap, ekernel);
        seen := seen + [mmap];
        mmap := NextMmap(read, mmap);
      }
      assert Entries(read, mmap, end) == [];
      assert seen == Entries(read, mbi.mmapAddr, end);
    }

    /** One pass of the outer loop. */
    method FreeEntry(read: Word -> Word, mmap: Word, ekernel: Word)
      requires Valid()
      requires Available(read, mmap) ==> StepsTerminate(Addr(read, mmap), Len(read, mmap))
      modifies mngr
      ensures forall f: nat :: f in Free() <==>
        f in old(Free()) || (f < NFRAMES && EntryFrees(read, mmap, ekernel, f))
    {
      if read((mmap + 20) % 0x1_0000_0000) == MULTIBOOT_MEMORY_AVAILABLE {
        FreeRegion(read((mmap + 4) % 0x1_0000_0000), read((mmap + 12) % 0x1_0000_0000), ekernel);
      }
    }

    /** The inner loop of the memory-map branch. */
    method FreeRegion(addr: Word, len: Word, ekernel: Word)
      requires Valid() && StepsTerminate(addr, len)
      modifies mngr
      ensures forall f: nat :: f in Free() <==>
        f in old(Free()) || (f < NFRAMES && Touches(addr, len, f) && ekernel < Start(addr, f))
    {
      var start: Word := addr;
      UpToStart(Free(), addr, len, ekernel);
      while start < len
        invariant Sealed(UpTo(old(Free()), Free(), addr, start, len, ekernel))
        decreases len - start
      {
        ghost var before := Free();
        if start > ekernel {
          FreeFrame(start);
        }
        UpToStep(old(Free()), before, Free(), addr, start, len, ekernel);
        start := NextStart(start);
      }
      UpToEnd(old(Free()), Free(), addr, start, len, ekernel);
    }
  }

  /** The word and the bit of a frame tell it from all others. */
  lemma SameFrame(f: nat, g: nat)
    ensures f == g <==> f / 32 == g / 32 && f % 32 == g % 32
  {
  }

  lemma WordAndBit(where: Word)
    ensures where / 0x2_0000 == where / 4096 / 32 && where / 4096 < NFRAMES
  {
  }

  lemma OrWord(w: Word, i: nat)
    requires i < 32
    ensures Or(w, Pow2(i)) < 0x1_0000_0000
  {
    Pow2Values();
    Pow2Monotone(i, 31);
    OrBounded(w, Pow2(i), 32);
  }

  lemma {:induction false} Pow2Monotone(i: nat, k: nat)
    requires i <= k
    ensures Pow2(i) <= Pow2(k)
  {
    if i < k { Pow2Monotone(i, k - 1); }
  }
}
