/** ELF images (elf.c, elf.h) and what loading one does to an address space. */
module Loading {
  import opened Wrappers
  import opened Words
  import opened Paging
  import opened Mapping
  import opened Directories
  import opened UserMaps
  import opened Bytes

  const PT_LOAD: Word := 1

  /** e_ident starts with the magic number, 32-bit class, current version. */
  predicate IsValid(c: seq<Byte>)
    requires |c| >= 52
  {
    c[..4] == [0x7F, 0x45, 0x4C, 0x46] && c[4] == 1 && c[6] == 1
  }

  function PhOff(c: seq<Byte>): Word
    requires |c| >= 52
  {
    U32(c, 28)
  }

  function PhEntSize(c: seq<Byte>): Word
    requires |c| >= 52
  {
    U16(c, 42)
  }

  function PhNum(c: seq<Byte>): Word
    requires |c| >= 52
  {
    U16(c, 44)
  }

  /** e_entry */
  function EntryOf(c: seq<Byte>): Word
    requires |c| >= 52
  {
    U32(c, 24)
  }

  /** Where program header n is in the file. */
  function Header(c: seq<Byte>, n: nat): nat
    requires |c| >= 52
  {
    if n == 0 then PhOff(c) else Header(c, n - 1) + PhEntSize(c)
  }

  datatype Segment = Segment(ptype: Word, offset: Word, vaddr: Word, filesz: Word) {
    /** The segment has bytes to load. */
    predicate Loads() {
      ptype == PT_LOAD && filesz > 0
    }
  }

  function SegmentAt(c: seq<Byte>, h: nat): Segment
    requires h + 32 <= |c|
  {
    Segment(U32(c, h), U32(c, h + 4), U32(c, h + 8), U32(c, h + 16))
  }

  /** The file holds its header, its program headers and its segments, and each
      segment lies in the first page of the file: the copy of elf_map_sections
      goes to offset p_offset of a single frame. */
  ghost predicate SinglePage(c: seq<Byte>) {
    && 52 <= |c| < 0x1_0000_0000
    && forall n :: 0 <= n < PhNum(c) ==>
      && Header(c, n) + 32 <= |c|
      && var g := SegmentAt(c, Header(c, n));
         g.Loads() ==> g.offset + g.filesz <= 4096 && g.offset + g.filesz <= |c|
  }

  function Seg(c: seq<Byte>, n: nat): Segment
    requires 52 <= |c| && Header(c, n) + 32 <= |c|
  {
    SegmentAt(c, Header(c, n))
  }

  /** Frame f holds the bytes of segment g of the file. */
  ghost predicate Holding(f: Frame, c: seq<Byte>, g: Segment)
    requires g.offset + g.filesz <= 4096 && g.offset + g.filesz <= |c|
  {
    forall k :: g.offset <= k < g.offset + g.filesz ==> FrameByte(f, k) == c[k]
  }

  /** Directory d maps the page of g to a data frame holding g. */
  ghost predicate SegLoaded(s: Snap, d: nat, c: seq<Byte>, g: Segment)
    requires |s.mem| == NF && d < NF && g.offset + g.filesz <= 4096 && g.offset + g.filesz <= |c|
  {
    && Walk(s.mem, d, Page(g.vaddr)).Some?
    && var e := Walk(s.mem, d, Page(g.vaddr)).value;
    && IsData(s, Target(e)) && e % 4096 == 7 && Holding(s.mem[Target(e)], c, g)
  }

  /** Segment m is mapped, and no header from m + 1 to n - 1 maps its page again. */
  ghost predicate Last(c: seq<Byte>, m: nat, n: nat)
    requires SinglePage(c) && m < n <= PhNum(c)
  {
    Seg(c, m).Loads() &&
    forall l :: m < l < n && Seg(c, l).Loads() ==> Page(Seg(c, l).vaddr) != Page(Seg(c, m).vaddr)
  }

  /** Some segment of the image is loaded to page q. */
  ghost predicate LoadsPage(c: seq<Byte>, q: nat)
    requires SinglePage(c)
  {
    exists m :: 0 <= m < PhNum(c) && Seg(c, m).Loads() && Page(Seg(c, m).vaddr) == q
  }

  /** The last of them is what is there in the end. */
  lemma {:induction false} LastOfPage(c: seq<Byte>, q: nat, n: nat, m: nat) returns (l: nat)
    requires SinglePage(c) && m < n <= PhNum(c) && Seg(c, m).Loads() && Page(Seg(c, m).vaddr) == q
    ensures l < n && Last(c, l, n) && Page(Seg(c, l).vaddr) == q
    decreases n - m
  {
    if i :| m < i < n && Seg(c, i).Loads() && Page(Seg(c, i).vaddr) == q {
      l := LastOfPage(c, q, n, i);
    } else {
      l := m;
    }
  }

  /** Page q belongs to none of the first n segments. */
  ghost predicate Untouched(c: seq<Byte>, n: nat, q: nat)
    requires SinglePage(c) && n <= PhNum(c)
  {
    forall l :: 0 <= l < n && Seg(c, l).Loads() ==> Page(Seg(c, l).vaddr) != q
  }

  ghost predicate Kept(s0: Snap, s: Snap, d: nat) {
    Valid(s) && d in s.dirs && SameDirs(s0, s) && DataKept(s0, s)
  }

  ghost predicate SegsLoaded(s: Snap, d: nat, c: seq<Byte>, n: nat)
    requires |s.mem| == NF && d < NF && SinglePage(c) && n <= PhNum(c)
  {
    forall m :: 0 <= m < n && Last(c, m, n) ==> SegLoaded(s, d, c, Seg(c, m))
  }

  ghost predicate OtherPagesKept(s0: Snap, s: Snap, d: nat, c: seq<Byte>, n: nat)
    requires |s0.mem| == NF && |s.mem| == NF && d < NF && SinglePage(c) && n <= PhNum(c)
  {
    forall q :: 0 <= q < NPAGES && Untouched(c, n, q) ==> Walk(s.mem, d, q) == Walk(s0.mem, d, q)
  }

  ghost predicate AllBelowKernel(c: seq<Byte>, n: nat)
    requires SinglePage(c) && n <= PhNum(c)
  {
    forall m :: 0 <= m < n && Seg(c, m).Loads() ==> Seg(c, m).vaddr < KHALF
  }

  /** Directories x and d have no table in common at index i. */
  ghost predicate Apart(s: Snap, d: nat, x: nat, i: nat)
    requires d < |s.mem| && x < |s.mem| && i < 1024
  {
    Present(s.mem[x][i]) && Present(s.mem[d][i]) ==> Target(s.mem[x][i]) != Target(s.mem[d][i])
  }

  /** No segment of the image is loaded at index i. */
  ghost predicate Clear(c: seq<Byte>, i: nat)
    requires SinglePage(c)
  {
    forall m :: 0 <= m < PhNum(c) && Seg(c, m).Loads() ==> Page(Seg(c, m).vaddr) / 1024 != i
  }

  /** Every other directory translates as before at each index where it has no
      table in common with d or where the image is not loaded. */
  ghost predicate Spares(s0: Snap, s: Snap, d: nat, c: seq<Byte>)
    requires SinglePage(c)
  {
    && Roles(s0) && Roles(s) && s.dirs == s0.dirs && d in s.dirs
    && forall x, i :: x in s0.dirs && x != d && 0 <= i < 1024 && (Clear(c, i) || Apart(s0, d, x, i)) ==>
         SparedAt(s0, s, d, x, i)
  }

  ghost predicate SparedAt(s0: Snap, s: Snap, d: nat, x: nat, i: nat)
    requires |s0.mem| == NF && |s.mem| == NF && d < NF && x < NF && i < 1024
  {
    && (Apart(s0, d, x, i) ==> Apart(s, d, x, i))
    && forall q :: i * 1024 <= q < (i + 1) * 1024 ==> Walk(s.mem, x, q) == Walk(s0.mem, x, q)
  }

  /** Page q of d leads to data in a frame that was free in s0. */
  ghost predicate FreshAt(s0: Snap, s: Snap, d: nat, q: nat)
    requires |s.mem| == NF && d < NF && q < NPAGES
  {
    && Walk(s.mem, d, q).Some?
    && var f := Target(Walk(s.mem, d, q).value);
    && f in s0.free && IsData(s, f)
  }

  /** The pages of the first n segments are in new frames. */
  ghost predicate FreshPages(s0: Snap, s: Snap, d: nat, c: seq<Byte>, n: nat)
    requires |s.mem| == NF && d < NF && SinglePage(c) && n <= PhNum(c)
  {
    forall q :: 0 <= q < NPAGES && !Untouched(c, n, q) ==> FreshAt(s0, s, d, q)
  }

  /** The directories themselves and all translations are the same. */
  ghost predicate DirsSame(s: Snap, s': Snap) {
    && Roles(s) && Roles(s') && s'.dirs == s.dirs
    && (forall x :: x in s.dirs ==> s'.mem[x] == s.mem[x])
    && (forall x, q :: x in s.dirs && 0 <= q < NPAGES ==> Walk(s'.mem, x, q) == Walk(s.mem, x, q))
  }

  /** The state after the first n program headers, starting from s0. */
  ghost predicate LoadState(s0: Snap, s: Snap, d: nat, c: seq<Byte>, n: nat) {
    && SinglePage(c) && n <= PhNum(c) && Kept(s0, s, d)
    && SegsLoaded(s, d, c, n) && OtherPagesKept(s0, s, d, c, n) && AllBelowKernel(c, n)
    && FreshPages(s0, s, d, c, n)
    && |s0.free| <= |s.free| + 2 * n && Spares(s0, s, d, c)
  }

  /** A load that failed: for want of frames or for a segment too high. The
      kernel half of every directory and all earlier data are as before, and the
      directory's own pages lead where they did or to new frames. */
  ghost predicate LoadFailed(s0: Snap, s: Snap, d: nat, c: seq<Byte>) {
    && SinglePage(c) && Kept(s0, s, d) && Spares(s0, s, d, c) && (s.free == {} || !AllBelowKernel(c, PhNum(c)))
    && |s0.mem| == NF && OldOrFresh(s0, s, d)
  }

  ghost predicate OldOrFresh(s0: Snap, s: Snap, d: nat)
    requires |s0.mem| == NF && |s.mem| == NF && d < NF
  {
    forall q :: 0 <= q < NPAGES ==> Walk(s.mem, d, q) == Walk(s0.mem, d, q) || FreshAt(s0, s, d, q)
  }

  lemma LoadStateOldOrFresh(s0: Snap, s: Snap, d: nat, c: seq<Byte>, n: nat)
    requires Holds(LoadState(s0, s, d, c, n))
    ensures |s0.mem| == NF && |s.mem| == NF && d < NF && OldOrFresh(s0, s, d)
  {
    forall q | 0 <= q < NPAGES ensures Walk(s.mem, d, q) == Walk(s0.mem, d, q) || FreshAt(s0, s, d, q) {
      if Untouched(c, n, q) {
        assert Walk(s.mem, d, q) == Walk(s0.mem, d, q);
      } else {
        assert FreshAt(s0, s, d, q);
      }
    }
  }

  lemma LoadFails(s0: Snap, s: Snap, s': Snap, d: nat, c: seq<Byte>, n: nat)
    requires Holds(LoadState(s0, s, d, c, n)) && Holds(Kept(s, s', d)) && Holds(DirsSame(s, s')) && s'.free == {}
    ensures Holds(LoadFailed(s0, s', d, c))
  {
    KeptTrans(s0, s, s', d);
    LoadStateOldOrFresh(s0, s, d, c, n);
    FailSpares(s0, s, s', d, c);
    forall q | 0 <= q < NPAGES ensures Walk(s'.mem, d, q) == Walk(s0.mem, d, q) || FreshAt(s0, s', d, q) {
      assert Walk(s'.mem, d, q) == Walk(s.mem, d, q);
      assert Walk(s.mem, d, q) == Walk(s0.mem, d, q) || FreshAt(s0, s, d, q);
    }
  }

  lemma FailSpares(s0: Snap, s: Snap, s': Snap, d: nat, c: seq<Byte>)
    requires SinglePage(c) && Holds(Spares(s0, s, d, c)) && Holds(DirsSame(s, s'))
    ensures Holds(Spares(s0, s', d, c))
  {
    forall x, i | x in s0.dirs && x != d && 0 <= i < 1024 && (Clear(c, i) || Apart(s0, d, x, i))
      ensures SparedAt(s0, s', d, x, i)
    {
      assert SparedAt(s0, s, d, x, i);
      forall q | i * 1024 <= q < (i + 1) * 1024 ensures Walk(s'.mem, x, q) == Walk(s0.mem, x, q) {
        assert Walk(s'.mem, x, q) == Walk(s.mem, x, q);
      }
    }
  }

  lemma LoadStart(s: Snap, d: nat, c: seq<Byte>)
    requires Holds(Valid(s)) && d in s.dirs && SinglePage(c)
    ensures Holds(LoadState(s, s, d, c, 0))
  {
  }

  /** A header that loads nothing. */
  lemma LoadSkip(s0: Snap, s: Snap, d: nat, c: seq<Byte>, n: nat)
    requires Holds(LoadState(s0, s, d, c, n)) && n < PhNum(c) && !Seg(c, n).Loads()
    ensures Holds(LoadState(s0, s, d, c, n + 1))
  {
    SkipSegments(s, d, c, n);
    SkipPages(s0, s, d, c, n);
  }

  lemma SkipSegments(s: Snap, d: nat, c: seq<Byte>, n: nat)
    requires |s.mem| == NF && d < NF && SinglePage(c) && n < PhNum(c) && !Seg(c, n).Loads() && SegsLoaded(s, d, c, n)
    ensures SegsLoaded(s, d, c, n + 1)
  {
    forall m | 0 <= m < n + 1 && Last(c, m, n + 1) ensures SegLoaded(s, d, c, Seg(c, m)) {
      assert Last(c, m, n);
    }
  }

  lemma SkipPages(s0: Snap, s: Snap, d: nat, c: seq<Byte>, n: nat)
    requires |s0.mem| == NF && |s.mem| == NF && d < NF && SinglePage(c) && n < PhNum(c) && !Seg(c, n).Loads()
    requires OtherPagesKept(s0, s, d, c, n) && FreshPages(s0, s, d, c, n)
    ensures OtherPagesKept(s0, s, d, c, n + 1) && FreshPages(s0, s, d, c, n + 1)
  {
    forall q | 0 <= q < NPAGES ensures Untouched(c, n + 1, q) <==> Untouched(c, n, q) {
    }
  }

  /** The three writes that load segment g: take frame f, fill it, map it. */
  ghost predicate Loads(s: Snap, s1: Snap, s2: Snap, s3: Snap, d: nat, c: seq<Byte>, g: Segment, f: nat, pte: Word) {
    && Taken(s, s1, f) && Written(s1, s2, f) && UserMapped(s2, s3, d, Page(g.vaddr), pte)
    && Target(pte) == f && pte % 4096 == 7
    && g.offset + g.filesz <= 4096 && g.offset + g.filesz <= |c|
    && Holding(s2.mem[f], c, g)
  }

  /** The outcome of the final vm_map_page. */
  lemma PageLoaded(s: Snap, s1: Snap, s2: Snap, s3: Snap, d: nat, c: seq<Byte>, g: Segment, f: nat, pg: Word, va: Word,
                   pte: Word, rc: int)
    requires Holds(Valid(s)) && d in s.dirs && f < NF && pg == 4096 * f && va == g.vaddr < KHALF
    requires Holds(Taken(s, s1, f)) && Holds(Written(s1, s2, f)) && |s2.mem| == NF
    requires g.offset + g.filesz <= 4096 && g.offset + g.filesz <= |c|
    requires Holds(Holding(s2.mem[f], c, g)) && pte == Entry(PageBase(pg), UserFlags())
    requires Holds(MapPageResult(s2, s3, d, va, pte, UserFlags(), 0, rc))
    ensures rc == 0 ==> Holds(Loads(s, s1, s2, s3, d, c, g, f, pte))
    ensures rc != 0 ==> Holds(Kept(s, s3, d)) && Holds(DirsSame(s, s3)) && s3.free == {}
  {
    assert Or(Or(0, PTE_P), 6) == 7;
    if rc != 0 {
      TakenKeeps(s, s1, f);
      WrittenKeeps(s1, s2, f);
    }
  }

  lemma LoadsKeeps(s: Snap, s1: Snap, s2: Snap, s3: Snap, d: nat, c: seq<Byte>, g: Segment, f: nat, pte: Word)
    requires Holds(Valid(s)) && d in s.dirs && Holds(Loads(s, s1, s2, s3, d, c, g, f, pte))
    ensures Holds(Kept(s, s3, d)) && IsData(s3, f) && s3.mem[f] == s2.mem[f]
  {
    TakenKeeps(s, s1, f);
    WrittenKeeps(s1, s2, f);
    UserKeepsValid(s2, s3, d, Page(g.vaddr), pte);
    UserKeepsData(s2, s3, d, Page(g.vaddr), pte);
  }

  /** A segment takes a frame for its page and at most one for a table. */
  lemma LoadsCount(s: Snap, s1: Snap, s2: Snap, s3: Snap, d: nat, c: seq<Byte>, g: Segment, f: nat, pte: Word)
    requires Holds(Loads(s, s1, s2, s3, d, c, g, f, pte))
    ensures |s3.free| >= |s.free| - 2
  {
    TakenCount(s, s1, f);
    UserCount(s2, s3, d, Page(g.vaddr), pte);
  }

  lemma LoadsWalks(s: Snap, s1: Snap, s2: Snap, s3: Snap, d: nat, c: seq<Byte>, g: Segment, f: nat, pte: Word, q: nat)
    requires Holds(Valid(s)) && d in s.dirs && Holds(Loads(s, s1, s2, s3, d, c, g, f, pte)) && q < NPAGES
    ensures |s3.mem| == NF && d < NF
    ensures Walk(s3.mem, d, q) == if q == Page(g.vaddr) then Some(pte) else Walk(s.mem, d, q)
  {
    TakenKeeps(s, s1, f);
    WrittenKeeps(s1, s2, f);
    UserWalks(s2, s3, d, Page(g.vaddr), pte, q);
  }

  /** Loading h leaves g loaded when they are on different pages. */
  lemma LoadsKeepsSegment(s: Snap, s1: Snap, s2: Snap, s3: Snap, d: nat, c: seq<Byte>, h: Segment, f: nat,
                          pte: Word, g: Segment)
    requires Holds(Valid(s)) && d in s.dirs && Holds(Loads(s, s1, s2, s3, d, c, h, f, pte))
    requires Holds(Kept(s, s3, d)) && IsData(s3, f) && s3.mem[f] == s2.mem[f]
    requires |s.mem| == NF && d < NF && g.offset + g.filesz <= 4096 && g.offset + g.filesz <= |c|
    requires g == h || (Page(g.vaddr) != Page(h.vaddr) && SegLoaded(s, d, c, g))
    ensures SegLoaded(s3, d, c, g)
  {
    LoadsWalks(s, s1, s2, s3, d, c, h, f, pte, Page(g.vaddr));
  }

  lemma LoadStepSegment(s: Snap, s1: Snap, s2: Snap, s3: Snap, d: nat, c: seq<Byte>, n: nat, f: nat,
                        pte: Word, m: nat, g: Segment, h: Segment)
    requires Holds(Valid(s)) && d in s.dirs && |s.mem| == NF && d < NF
    requires SinglePage(c) && n < PhNum(c) && h == Seg(c, n) && h.Loads() && Holds(SegsLoaded(s, d, c, n))
    requires Holds(Loads(s, s1, s2, s3, d, c, h, f, pte))
    requires Holds(Kept(s, s3, d)) && IsData(s3, f) && s3.mem[f] == s2.mem[f]
    requires m <= n && g == Seg(c, m) && Last(c, m, n + 1)
    ensures g.offset + g.filesz <= 4096 && g.offset + g.filesz <= |c| && |s3.mem| == NF
    ensures Holds(SegLoaded(s3, d, c, g))
  {
    if m < n {
      assert Last(c, m, n);
      assert SegLoaded(s, d, c, g);
    }
    LoadsKeepsSegment(s, s1, s2, s3, d, c, h, f, pte, g);
  }

  lemma LoadStepPage(s0: Snap, s: Snap, s1: Snap, s2: Snap, s3: Snap, d: nat, c: seq<Byte>, n: nat, f: nat,
                     pte: Word, q: nat)
    requires Holds(LoadState(s0, s, d, c, n)) && n < PhNum(c) && Seg(c, n).Loads()
    requires Holds(Loads(s, s1, s2, s3, d, c, Seg(c, n), f, pte))
    requires q < NPAGES && Untouched(c, n + 1, q)
    ensures |s3.mem| == NF && |s0.mem| == NF && d < NF
    ensures Walk(s3.mem, d, q) == Walk(s0.mem, d, q)
  {
    assert Untouched(c, n, q);
    LoadsWalks(s, s1, s2, s3, d, c, Seg(c, n), f, pte, q);
  }

  lemma LoadStepSegments(s: Snap, s1: Snap, s2: Snap, s3: Snap, d: nat, c: seq<Byte>, n: nat, f: nat,
                         pte: Word, h: Segment)
    requires Holds(Valid(s)) && d in s.dirs && |s.mem| == NF && d < NF
    requires SinglePage(c) && n < PhNum(c) && h == Seg(c, n) && h.Loads() && Holds(SegsLoaded(s, d, c, n))
    requires Holds(Loads(s, s1, s2, s3, d, c, h, f, pte))
    requires Holds(Kept(s, s3, d)) && IsData(s3, f) && s3.mem[f] == s2.mem[f]
    ensures |s3.mem| == NF && Holds(SegsLoaded(s3, d, c, n + 1))
  {
    forall m | 0 <= m < n + 1 && Last(c, m, n + 1) ensures Holds(SegLoaded(s3, d, c, Seg(c, m))) {
      LoadStepSegment(s, s1, s2, s3, d, c, n, f, pte, m, Seg(c, m), h);
    }
  }

  lemma LoadStepPages(s0: Snap, s: Snap, s1: Snap, s2: Snap, s3: Snap, d: nat, c: seq<Byte>, n: nat, f: nat,
                      pte: Word)
    requires Holds(LoadState(s0, s, d, c, n)) && n < PhNum(c) && Seg(c, n).Loads()
    requires Holds(Loads(s, s1, s2, s3, d, c, Seg(c, n), f, pte))
    ensures |s3.mem| == NF && |s0.mem| == NF && d < NF
    ensures Holds(OtherPagesKept(s0, s3, d, c, n + 1))
  {
    LoadsKeeps(s, s1, s2, s3, d, c, Seg(c, n), f, pte);
    forall q | 0 <= q < NPAGES && Untouched(c, n + 1, q) ensures Walk(s3.mem, d, q) == Walk(s0.mem, d, q) {
      LoadStepPage(s0, s, s1, s2, s3, d, c, n, f, pte, q);
    }
  }

  lemma LoadStepFresh(s0: Snap, s: Snap, s1: Snap, s2: Snap, s3: Snap, d: nat, c: seq<Byte>, n: nat, f: nat,
                      pte: Word)
    requires Holds(LoadState(s0, s, d, c, n)) && n < PhNum(c) && Seg(c, n).Loads()
    requires Holds(Loads(s, s1, s2, s3, d, c, Seg(c, n), f, pte))
    ensures |s3.mem| == NF && d < NF && Holds(FreshPages(s0, s3, d, c, n + 1))
  {
    LoadsKeeps(s, s1, s2, s3, d, c, Seg(c, n), f, pte);
    forall q | 0 <= q < NPAGES && !Untouched(c, n + 1, q) ensures FreshAt(s0, s3, d, q) {
      if q != Page(Seg(c, n).vaddr) {
        assert !Untouched(c, n, q);
        assert FreshAt(s0, s, d, q);
      }
      FreshStep(s0, s, s1, s2, s3, d, c, Seg(c, n), f, pte, q);
    }
  }

  lemma FreshStep(s0: Snap, s: Snap, s1: Snap, s2: Snap, s3: Snap, d: nat, c: seq<Byte>, g: Segment, f: nat, pte: Word,
                  q: nat)
    requires Holds(Valid(s)) && d in s.dirs && d < NF && |s.mem| == NF && Holds(Loads(s, s1, s2, s3, d, c, g, f, pte))
    requires Holds(Kept(s, s3, d)) && IsData(s3, f) && s.free <= s0.free
    requires q < NPAGES && (q == Page(g.vaddr) || FreshAt(s0, s, d, q))
    ensures |s3.mem| == NF && FreshAt(s0, s3, d, q)
  {
    LoadsWalks(s, s1, s2, s3, d, c, g, f, pte, q);
  }

  /** One segment spares the directories that are apart from d, or where it is
      not loaded. */
  lemma LoadsSpare(s0: Snap, s: Snap, s1: Snap, s2: Snap, s3: Snap, d: nat, c: seq<Byte>, n: nat, f: nat, pte: Word)
    requires Holds(LoadState(s0, s, d, c, n)) && n < PhNum(c) && Seg(c, n).Loads()
    requires Holds(Loads(s, s1, s2, s3, d, c, Seg(c, n), f, pte))
    ensures Holds(Spares(s0, s3, d, c))
  {
    LoadsKeeps(s, s1, s2, s3, d, c, Seg(c, n), f, pte);
    forall x, i | x in s0.dirs && x != d && 0 <= i < 1024 && (Clear(c, i) || Apart(s0, d, x, i))
      ensures SparedAt(s0, s3, d, x, i)
    {
      assert SparedAt(s0, s, d, x, i);
      LoadsSpareAt(s, s1, s2, s3, d, c, n, f, pte, x, i);
    }
  }

  lemma LoadsSpareAt(s: Snap, s1: Snap, s2: Snap, s3: Snap, d: nat, c: seq<Byte>, n: nat, f: nat, pte: Word,
                     x: nat, i: nat)
    requires Holds(Valid(s)) && d in s.dirs && x in s.dirs && x != d && |s.mem| == NF && d < NF && x < NF && i < 1024
    requires SinglePage(c) && n < PhNum(c) && Seg(c, n).Loads() && (Clear(c, i) || Apart(s, d, x, i))
    requires Holds(Loads(s, s1, s2, s3, d, c, Seg(c, n), f, pte))
    ensures |s3.mem| == NF && SparedAt(s, s3, d, x, i)
  {
    TakenKeeps(s, s1, f);
    WrittenKeeps(s1, s2, f);
    var p := Page(Seg(c, n).vaddr);
    if Apart(s, d, x, i) {
      UserStaysApart(s2, s3, d, p, pte, x, i);
    }
    forall q | i * 1024 <= q < (i + 1) * 1024 ensures Walk(s3.mem, x, q) == Walk(s.mem, x, q) {
      AtIndex(i, q);
      UserWalksElsewhere(s2, s3, d, p, pte, x, q);
    }
  }

  lemma AtIndex(i: nat, q: nat)
    requires i * 1024 <= q < (i + 1) * 1024
    ensures q / 1024 == i
  {
  }

  lemma UserStaysApart(s: Snap, s': Snap, d: nat, p: nat, pte: Word, x: nat, i: nat)
    requires UserMapped(s, s', d, p, pte) && x in s.dirs && x != d && i < 1024 && Apart(s, d, x, i)
    ensures Apart(s', d, x, i)
  {
    assert EntryOk(s, s.mem[x][i], i);
  }

  /** A header that loads a segment. */
  lemma LoadStep(s0: Snap, s: Snap, s1: Snap, s2: Snap, s3: Snap, d: nat, c: seq<Byte>, n: nat, h: Segment, f: nat,
                 pte: Word)
    requires Holds(LoadState(s0, s, d, c, n)) && n < PhNum(c) && h == Seg(c, n) && h.vaddr < KHALF && h.Loads()
    requires Holds(Loads(s, s1, s2, s3, d, c, h, f, pte))
    ensures Holds(LoadState(s0, s3, d, c, n + 1))
  {
    LoadsKeeps(s, s1, s2, s3, d, c, h, f, pte);
    LoadStepSegments(s, s1, s2, s3, d, c, n, f, pte, h);
    LoadStepPages(s0, s, s1, s2, s3, d, c, n, f, pte);
    KeptTrans(s0, s, s3, d);
    LoadStepFresh(s0, s, s1, s2, s3, d, c, n, f, pte);
    LoadsSpare(s0, s, s1, s2, s3, d, c, n, f, pte);
    LoadsCount(s, s1, s2, s3, d, c, h, f, pte);
    assert AllBelowKernel(c, n + 1);
  }

  /** Two frames for each header are enough. */
  lemma FramesForSegment(s0: Snap, s: Snap, d: nat, c: seq<Byte>, n: nat, unsure: bool)
    requires Holds(LoadState(s0, s, d, c, n)) && n < PhNum(c) && (unsure || |s0.free| >= 2 * PhNum(c))
    ensures unsure || |s.free| >= 2
  {
  }

  lemma KeptTrans(s0: Snap, s: Snap, s': Snap, d: nat)
    requires Holds(Kept(s0, s, d)) && Holds(Kept(s, s', d))
    ensures Holds(Kept(s0, s', d))
  {
  }

  /** The byte an access to virtual address va reads through directory d. */
  ghost function ReadVirtual(mem: seq<Frame>, d: nat, va: Word): Option<Byte>
    requires |mem| == NF && d < NF
  {
    match Walk(mem, d, Page(va))
    case None => None
    case Some(e) => if Target(e) < NF then Some(FrameByte(mem[Target(e)], va % 4096)) else None
  }

  /** Through directory d the image is read at address `at`, out of data frames. */
  ghost predicate ImageAt(s: Snap, d: nat, at: Word, c: seq<Byte>)
    requires |s.mem| == NF && d < NF && at + |c| <= 0x1_0000_0000
  {
    forall k :: 0 <= k < |c| ==> ByteAt(s, d, at, c, k)
  }

  ghost predicate ByteAt(s: Snap, d: nat, at: Word, c: seq<Byte>, k: nat)
    requires |s.mem| == NF && d < NF && k < |c| && at + |c| <= 0x1_0000_0000
  {
    && Walk(s.mem, d, Page(at + k)).Some? && IsData(s, Target(Walk(s.mem, d, Page(at + k)).value))
    && ReadVirtual(s.mem, d, at + k) == Some(c[k])
  }

  /** The image lies in no page it loads. */
  ghost predicate LiesApart(c: seq<Byte>, at: Word)
    requires SinglePage(c) && at + |c| <= 0x1_0000_0000
  {
    forall k :: 0 <= k < |c| ==> ByteApart(c, at, k)
  }

  ghost predicate ByteApart(c: seq<Byte>, at: Word, k: nat)
    requires SinglePage(c) && k < |c| && at + |c| <= 0x1_0000_0000
  {
    Untouched(c, PhNum(c), Page(at + k))
  }

  /** elf_map_sections reads header and program headers again after each mapping,
      through the directory it changes: as long as the image lies in no page it
      loads, it reads the same bytes after any number of them. */
  lemma ImageStays(s0: Snap, s: Snap, d: nat, c: seq<Byte>, n: nat, at: Word)
    requires Holds(LoadState(s0, s, d, c, n)) && at + |c| <= 0x1_0000_0000 && LiesApart(c, at)
    requires |s0.mem| == NF && d < NF && ImageAt(s0, d, at, c)
    ensures |s.mem| == NF && ImageAt(s, d, at, c)
  {
    forall k | 0 <= k < |c| ensures ByteAt(s, d, at, c, k) {
      assert ByteAt(s0, d, at, c, k) && ByteApart(c, at, k);
      assert Untouched(c, n, Page(at + k));
      assert Walk(s.mem, d, Page(at + k)) == Walk(s0.mem, d, Page(at + k));
    }
  }

  /** The image of euclid lies in the shell's data at 0x08049200 and loads only the
      page of 0x08048000. */
  lemma ShellImageLiesApart(c: seq<Byte>)
    requires SinglePage(c) && |c| == 1520
    requires forall m :: 0 <= m < PhNum(c) && Seg(c, m).Loads() ==> Page(Seg(c, m).vaddr) == 0x8048
    ensures LiesApart(c, 0x0804_9200)
  {
    forall k | 0 <= k < |c| ensures ByteApart(c, 0x0804_9200, k) {
      assert Page(0x0804_9200 + k) == 0x8049;
    }
  }

  /** Program loading: the bytes of every segment that no later one overlays
      are read back through the page walk, byte p_offset + k of the file at the
      segment's page plus p_offset + k. That is p_vaddr + k, as program loading
      asks, exactly when p_vaddr is congruent to p_offset modulo the page. */
  lemma LoadedBytes(s0: Snap, s: Snap, d: nat, c: seq<Byte>, m: nat, g: Segment, k: nat)
    requires SinglePage(c) && Holds(LoadState(s0, s, d, c, PhNum(c)))
    requires m < PhNum(c) && g == Seg(c, m) && Last(c, m, PhNum(c)) && k < g.filesz
    ensures |s.mem| == NF && d < NF && g.offset + g.filesz <= |c| && PageBase(g.vaddr) + g.offset + k < 0x1_0000_0000
    ensures ReadVirtual(s.mem, d, PageBase(g.vaddr) + g.offset + k) == Some(c[g.offset + k])
    ensures PageBase(g.vaddr) + g.offset + k == g.vaddr + k <==> g.vaddr % 4096 == g.offset
  {
    assert SegLoaded(s, d, c, Seg(c, m));
    SegmentBytes(s, d, c, g, k);
  }

  lemma SegmentBytes(s: Snap, d: nat, c: seq<Byte>, g: Segment, k: nat)
    requires |s.mem| == NF && d < NF && g.offset + g.filesz <= 4096 && g.offset + g.filesz <= |c|
    requires SegLoaded(s, d, c, g) && k < g.filesz
    ensures PageBase(g.vaddr) + g.offset + k < 0x1_0000_0000
    ensures ReadVirtual(s.mem, d, PageBase(g.vaddr) + g.offset + k) == Some(c[g.offset + k])
    ensures PageBase(g.vaddr) + g.offset + k == g.vaddr + k <==> g.vaddr % 4096 == g.offset
  {
    PagePlus(g.vaddr, g.offset + k);
    assert PageBase(g.vaddr) == g.vaddr - g.vaddr % 4096;
  }

  lemma PagePlus(va: Word, o: nat)
    requires o < 4096
    ensures PageBase(va) + o < 0x1_0000_0000
    ensures Page(PageBase(va) + o) == Page(va) && (PageBase(va) + o) % 4096 == o
  {
  }

  /** The passes of the page loop take every byte of the segment's file contents
      once: byte k in the pass at k's multiple of 4096. */
  lemma PassesCover(g: Segment, i: nat, k: nat)
    requires i < g.filesz && i % 4096 == 0
    ensures i <= k < i + ToCopy(g, i) <==> k < g.filesz && i == k / 4096 * 4096
  {
  }

  /** The loader's copy of a segment stays inside the frames it allocated, one
      for each page of the file contents, exactly when SinglePage's bound holds. */
  lemma CopyStaysInFrameIff(g: Segment)
    requires g.Loads()
    ensures (forall i: nat :: i < g.filesz && i % 4096 == 0 ==>
               g.offset + i + ToCopy(g, i) <= 4096)
            <==> g.offset + g.filesz <= 4096
  {
    if g.offset + g.filesz > 4096 {
      assert g.filesz > 4096 ==> g.offset + 4096 + ToCopy(g, 4096) > 4096;
      assert g.filesz <= 4096 ==> g.offset + 0 + ToCopy(g, 0) > 4096;
      if g.filesz > 4096 { assert 4096 % 4096 == 0; } else { assert 0 % 4096 == 0; }
    }
  }

  /** min(p_filesz - i, 4096) */
  function ToCopy(g: Segment, i: nat): nat
    requires i < g.filesz
  {
    if g.filesz - i > 4096 then 4096 else g.filesz - i
  }
}
