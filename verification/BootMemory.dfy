/** What pm_init frees, against the memory the boot loader offers (section 3.3
    of the Multiboot Specification 0.6.96). */
module BootMemory {
  import opened Words
  import opened Pm

  // ------------------------------------------------------------ the memory map

  /** The map's entry e calls frame f available. */
  predicate InEntry(read: Word -> Word, e: Word, f: nat) {
    Available(read, e) && Inside(Addr(read, e), Addr(read, e) + Len(read, e), f)
  }

  /** It offers frame f, which lies past the kernel: ekernel is the first address
      after it. */
  predicate Offers(read: Word -> Word, e: Word, ekernel: Word, f: nat) {
    InEntry(read, e, f) && ekernel <= 4096 * f
  }

  /** pm_init skips the page at the kernel's end and takes the length for an end
      address. It frees all that the region offers only if the region offers
      nothing past the kernel. */
  predicate Harmless(addr: nat, len: nat, ekernel: nat) {
    len == 0 || addr + len <= ekernel
  }

  predicate Aligned(read: Word -> Word, e: Word) {
    Addr(read, e) % 4096 == 0 && Len(read, e) % 4096 == 0
  }

  /** Exactly then: one region. */
  lemma RegionFreedIff(read: Word -> Word, e: Word, ekernel: Word)
    requires Available(read, e) && Aligned(read, e) && ekernel % 4096 == 0
    ensures (forall f: nat :: Offers(read, e, ekernel, f) ==> EntryFrees(read, e, ekernel, f))
        <==> Harmless(Addr(read, e), Len(read, e), ekernel)
  {
    var addr: nat, len: nat := Addr(read, e), Len(read, e);
    if Harmless(addr, len, ekernel) {
      forall f: nat ensures !Offers(read, e, ekernel, f) {
        NothingOffered(addr, len, ekernel, f);
      }
    } else {
      var f := LostFrame(addr, len, ekernel);
      assert Offers(read, e, ekernel, f) && !EntryFrees(read, e, ekernel, f);
    }
  }

  lemma NothingOffered(addr: nat, len: nat, ekernel: nat, f: nat)
    requires Harmless(addr, len, ekernel)
    ensures !(Inside(addr, addr + len, f) && ekernel <= 4096 * f)
  {
  }

  /** The page at the kernel's end, or the last of a region that starts above it */
  lemma LostFrame(addr: nat, len: nat, ekernel: nat) returns (f: nat)
    requires !Harmless(addr, len, ekernel) && addr % 4096 == 0 && len % 4096 == 0 && ekernel % 4096 == 0
    ensures Inside(addr, addr + len, f) && ekernel <= 4096 * f
    ensures !(Touches(addr, len, f) && ekernel < Start(addr, f))
  {
    var a, l, k := addr / 4096, len / 4096, ekernel / 4096;
    assert addr == 4096 * a && len == 4096 * l && ekernel == 4096 * k;
    f := if a <= k then k else a + l - 1;
  }

  /** No two entries that are available share a page. */
  ghost predicate Disjoint(read: Word -> Word, entries: seq<Word>) {
    forall i, j, f: nat ::
      0 <= i < |entries| && 0 <= j < |entries| && InEntry(read, entries[i], f) && InEntry(read, entries[j], f)
      ==> i == j
  }

  predicate SomeOffers(read: Word -> Word, entries: seq<Word>, ekernel: Word, f: nat) {
    exists i :: 0 <= i < |entries| && Offers(read, entries[i], ekernel, f)
  }

  /** Exactly then: the whole map, when its regions do not overlap. */
  lemma MapFreedIff(read: Word -> Word, entries: seq<Word>, ekernel: Word)
    requires ekernel % 4096 == 0 && Disjoint(read, entries)
    requires forall i :: 0 <= i < |entries| && Available(read, entries[i]) ==> Aligned(read, entries[i])
    ensures (forall f: nat :: SomeOffers(read, entries, ekernel, f) ==> SomeFrees(read, entries, ekernel, f))
        <==> (forall i :: 0 <= i < |entries| && Available(read, entries[i]) ==>
                Harmless(Addr(read, entries[i]), Len(read, entries[i]), ekernel))
  {
    forall i | 0 <= i < |entries| && Available(read, entries[i])
      ensures (forall f: nat :: Offers(read, entries[i], ekernel, f) ==> SomeFrees(read, entries, ekernel, f))
          <==> Harmless(Addr(read, entries[i]), Len(read, entries[i]), ekernel)
    {
      RegionFreedIff(read, entries[i], ekernel);
      forall f: nat | Offers(read, entries[i], ekernel, f) && SomeFrees(read, entries, ekernel, f)
        ensures EntryFrees(read, entries[i], ekernel, f)
      {
        OwnEntryFrees(read, entries, ekernel, i, f);
      }
    }
    if forall f: nat :: SomeOffers(read, entries, ekernel, f) ==> SomeFrees(read, entries, ekernel, f) {
      forall i, f: nat | 0 <= i < |entries| && Offers(read, entries[i], ekernel, f)
        ensures SomeFrees(read, entries, ekernel, f)
      {
        assert SomeOffers(read, entries, ekernel, f);
      }
    }
  }

  /** In a map without overlaps only its own entry can free a page. */
  lemma OwnEntryFrees(read: Word -> Word, entries: seq<Word>, ekernel: Word, i: nat, f: nat)
    requires Disjoint(read, entries) && i < |entries|
    requires forall i :: 0 <= i < |entries| && Available(read, entries[i]) ==> Aligned(read, entries[i])
    requires Offers(read, entries[i], ekernel, f) && SomeFrees(read, entries, ekernel, f)
    ensures EntryFrees(read, entries[i], ekernel, f)
  {
    var j :| 0 <= j < |entries| && EntryFrees(read, entries[j], ekernel, f);
    RegionInside(Addr(read, entries[j]), Len(read, entries[j]), f);
    assert InEntry(read, entries[j], f);
  }

  /** A map with one region, 126 MiB of memory from 1 MiB: its last MiB is lost. */
  function OneRegion(a: Word): Word {
    if a == 0x1000 then 20
    else if a == 0x1004 then 0x10_0000
    else if a == 0x100C then 0x7E0_0000
    else if a == 0x1014 then 1
    else 0
  }

  lemma LastMegabyteLost(free: set<nat>)
    requires FreedBy(free, OneRegion, Entries(OneRegion, 0x1000, 0x1018), 0x20_0000)
    ensures MapTerminates(OneRegion, 0x1000, 0x1018)
    ensures Offers(OneRegion, 0x1000, 0x20_0000, 0x7E00) && 0x7E00 !in free
    ensures Offers(OneRegion, 0x1000, 0x20_0000, 0x7DFF) && 0x7DFF in free
  {
    assert Entries(OneRegion, 0x1018, 0x1018) == [];
    assert Entries(OneRegion, 0x1000, 0x1018) == [0x1000];
    var entries: seq<Word> := [0x1000];
    assert EntryFrees(OneRegion, entries[0], 0x20_0000, 0x7DFF);
  }

  /** A map with one region, 128 MiB of memory from 0: the page at the kernel's
      end is lost, and that page alone. */
  function FromZero(a: Word): Word {
    if a == 0x1000 then 20
    else if a == 0x100C then 0x800_0000
    else if a == 0x1014 then 1
    else 0
  }

  lemma FirstPageLost(free: set<nat>)
    requires FreedBy(free, FromZero, Entries(FromZero, 0x1000, 0x1018), 0x20_0000)
    ensures MapTerminates(FromZero, 0x1000, 0x1018)
    ensures Offers(FromZero, 0x1000, 0x20_0000, 0x200) && 0x200 !in free
    ensures forall f: nat :: Offers(FromZero, 0x1000, 0x20_0000, f) && f != 0x200 ==> f in free
  {
    assert Entries(FromZero, 0x1018, 0x1018) == [];
    assert Entries(FromZero, 0x1000, 0x1018) == [0x1000];
    var entries: seq<Word> := [0x1000];
    forall f: nat | Offers(FromZero, 0x1000, 0x20_0000, f) && f != 0x200 ensures f in free {
      OfferedFrom0(f);
      assert EntryFrees(FromZero, entries[0], 0x20_0000, f);
    }
  }

  lemma OfferedFrom0(f: nat)
    requires Offers(FromZero, 0x1000, 0x20_0000, f) && f != 0x200
    ensures EntryFrees(FromZero, 0x1000, 0x20_0000, f) && f < NFRAMES
  {
  }

  // ---------------------------------------------------------------- mem_upper

  /** Upper memory: mem_upper KiB from 1 MiB on. */
  predicate Upper(memUpper: Word, ekernel: Word, f: nat) {
    Inside(0x10_0000, 0x10_0000 + 1024 * memUpper, f) && ekernel <= 4096 * f
  }

  /** pm_init takes KiB for bytes. So all it frees is upper memory, but it frees
      all of it only if none of it lies past the kernel. */
  lemma UpperFreedIff(ekernel: Word, memUpper: Word)
    requires ekernel % 4096 == 0 && ekernel >= 0x10_0000
    ensures forall f: nat :: Touches(ekernel, memUpper, f) ==> Upper(memUpper, ekernel, f)
    ensures (forall f: nat :: Upper(memUpper, ekernel, f) ==> Touches(ekernel, memUpper, f))
        <==> 0x10_0000 + 1024 * memUpper < ekernel + 4096
  {
    var f := (0x10_0000 + 1024 * memUpper) / 4096 - 1;
    if 0x10_0000 + 1024 * memUpper >= ekernel + 4096 {
      assert Upper(memUpper, ekernel, f) && !Touches(ekernel, memUpper, f);
    }
  }

  /** With 127 MiB of upper memory and a kernel that ends at 2 MiB nothing at
      all is freed. */
  lemma NothingFreed(f: nat)
    ensures !Touches(0x20_0000, 0x1_FC00, f)
    ensures StepsTerminate(0x20_0000, 0x1_FC00) && Upper(0x1_FC00, 0x20_0000, 0x200)
  {
  }
}
