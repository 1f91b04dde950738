/** Two-level 32-bit paging (Intel SDM Vol. 3A, section 4.3) on a pure snapshot
    of physical memory, and the effect of one vm_map_page on it. */
module Paging {
  import opened Wrappers
  import opened Words
  import opened Pm

  const KHALF: Word := 0xC000_0000
  const KHEAP: Word := 0x1000_0000
  const IO_START: Word := 0xFE00_0000
  const IO_END: Word := 0xFFFF_FFFF

  const PTE_P: Word := 1
  const PTE_W: Word := 2
  const PTE_U: Word := 4

  /** The frames below KHEAP, those the kernel window of every address space
      reaches. */
  const NF: nat := 0x1_0000

  const NPAGES: nat := 0x10_0000

  /** The 1024 words of a frame. */
  type Frame = f: seq<Word> | |f| == 1024 witness seq(1024, _ => 0)

  function ZeroFrame(): (z: Frame)
    ensures forall i :: 0 <= i < 1024 ==> z[i] == 0
  {
    seq(1024, _ => 0)
  }

  /** Where struct vm_cache keeps its bounds: after pages[64]. */
  const CACHE_BASE := 64
  const CACHE_LIMIT := 65

  /** A snapshot of the memory manager. `dirs` are the page directories in use,
      `slot` gives every page table the one directory index it serves, `kc` and
      `ioc` are the frames of the kernel and I/O caches. */
  datatype Snap = Snap(mem: seq<Frame>, free: set<nat>, dirs: set<nat>, slot: map<nat, nat>, kc: nat, ioc: nat)

  predicate Present(e: Word) {
    e % 2 == 1
  }

  /** The frame an entry points to: entry & 0xFFFFF000, as a frame number. */
  function Target(e: Word): nat {
    e / 4096
  }

  /** What page table t says about its entry j. */
  function Lookup(mem: seq<Frame>, t: nat, j: nat): Option<Word>
    requires j < 1024
  {
    if t < |mem| && Present(mem[t][j]) then Some(mem[t][j]) else None
  }

  /** The page walk: the page-table entry that maps page p of directory d. */
  function Walk(mem: seq<Frame>, d: nat, p: nat): Option<Word>
    requires d < |mem| && p < NPAGES
  {
    var e := mem[d][p / 1024];
    if Present(e) then Lookup(mem, Target(e), p % 1024) else None
  }

  /** An entry of directory index i points to a table that serves index i, and
      has none of the bits above PTE_D (in particular not PTE_PS). */
  ghost predicate EntryOk(s: Snap, e: Word, i: nat) {
    Present(e) ==> Target(e) in s.slot && s.slot[Target(e)] == i && e % 4096 < 128
  }

  /** Frames in use are in the window, and each has one role. */
  ghost predicate Roles(s: Snap) {
    && |s.mem| == NF
    && (forall f :: f in s.free ==> 0 < f < NF)
    && (forall f :: f in s.dirs ==> 0 < f < NF && f !in s.free && f !in s.slot && f != s.kc && f != s.ioc)
    && (forall f :: f in s.slot ==> 0 < f < NF && f !in s.free && f != s.kc && f != s.ioc)
    && 0 < s.kc < NF && 0 < s.ioc < NF && s.kc != s.ioc
    && s.kc !in s.free && s.ioc !in s.free
  }

  ghost predicate DirsOk(s: Snap)
    requires |s.mem| == NF && forall f :: f in s.dirs ==> 0 < f < NF
  {
    forall d, i :: d in s.dirs && 0 <= i < 1024 ==> EntryOk(s, s.mem[d][i], i)
  }

  /** A window of `count` tables from directory index `first`, cached in frame
      `cache`; page p of it is to be mapped to frame p - delta. */
  datatype Window = Window(cache: nat, first: nat, count: nat, delta: nat) {
    predicate Has(p: nat) {
      first * 1024 <= p < (first + count) * 1024
    }

    /** (pa & 0xFFFFF000) | PTE_P | PTE_W for page p */
    function Pte(p: nat): (e: nat)
      requires delta <= p
    {
      (p - delta) * 4096 + 3
    }
  }

  function KernelWindow(s: Snap): Window {
    Window(s.kc, 768, 64, 0xC_0000)
  }

  function IoWindow(s: Snap): Window {
    Window(s.ioc, 1016, 8, 0)
  }

  ghost predicate CacheOk(s: Snap, w: Window)
    requires w.cache < |s.mem| && w.count <= 64
  {
    forall i :: 0 <= i < w.count ==> EntryOk(s, s.mem[w.cache][i], w.first + i)
  }

  ghost predicate Inv(s: Snap) {
    && Roles(s)
    && DirsOk(s)
    && CacheOk(s, KernelWindow(s))
    && CacheOk(s, IoWindow(s))
    && s.mem[s.kc][CACHE_BASE] == KHALF && s.mem[s.kc][CACHE_LIMIT] == KHALF + KHEAP
    && s.mem[s.ioc][CACHE_BASE] == IO_START && s.mem[s.ioc][CACHE_LIMIT] == IO_END
  }

  /** Directory d maps every page of window w to its frame. */
  ghost predicate Complete(s: Snap, w: Window, d: nat)
    requires d < |s.mem| && w.first + w.count <= 1024 && w.delta <= w.first * 1024
  {
    forall p :: w.Has(p) ==> Walk(s.mem, d, p) == Some(w.Pte(p))
  }

  // ----------------------------------------------------------- access rights

  /** The bits R/W and U/S of an entry */
  predicate Writable(e: Word) {
    Bit(e, 1)
  }

  predicate UserMode(e: Word) {
    Bit(e, 2)
  }

  datatype Access = Access(write: bool, user: bool)

  /** What page p of directory d allows: both levels must (Intel SDM Vol. 3A,
      section 4.6). */
  function Rights(mem: seq<Frame>, d: nat, p: nat): Option<Access>
    requires d < |mem| && p < NPAGES
  {
    match Walk(mem, d, p)
    case None => None
    case Some(e) =>
      var pde := mem[d][p / 1024];
      Some(Access(Writable(pde) && Writable(e), UserMode(pde) && UserMode(e)))
  }

  /** A directory entry lets user programs in exactly below KHALF, and writing
      everywhere. */
  ghost predicate RightsAt(e: Word, i: nat) {
    Present(e) ==> Writable(e) && (UserMode(e) <==> i < 768)
  }

  ghost predicate DirRights(s: Snap, d: nat, i: nat)
    requires d < |s.mem| && i < 1024
  {
    RightsAt(s.mem[d][i], i)
  }

  ghost predicate CacheRights(s: Snap, w: Window)
    requires w.cache < |s.mem| && w.count <= 64
  {
    forall i :: 0 <= i < w.count ==> RightsAt(s.mem[w.cache][i], w.first + i)
  }

  ghost predicate RightsOk(s: Snap)
    requires Roles(s)
  {
    && (forall d, i :: d in s.dirs && 0 <= i < 1024 ==> DirRights(s, d, i))
    && CacheRights(s, KernelWindow(s)) && CacheRights(s, IoWindow(s))
  }

  /** What holds between any two kernel operations. */
  ghost predicate Valid(s: Snap) {
    && Inv(s) && RightsOk(s)
    && forall d :: d in s.dirs ==> Complete(s, KernelWindow(s), d) && Complete(s, IoWindow(s), d)
  }

  // ---------------------------------------------------------------- entries

  /** PTE_W | PTE_U */
  function UserFlags(): (f: Word)
    ensures f == 6
  {
    assert Or(PTE_W, PTE_U) == 6;
    Or(PTE_W, PTE_U)
  }

  /** base | PTE_P | flags */
  function Entry(base: Word, flags: Word): (e: Word)
    requires base % 4096 < 128 && flags < 128
    ensures Target(e) == Target(base) && Present(e) && e % 4096 < 128
    ensures e % 4096 == Or(Or(base % 4096, PTE_P), flags)
  {
    EntryBits(base, flags);
    Or(Or(base, PTE_P), flags)
  }

  lemma EntryBits(base: Word, flags: Word)
    requires base % 4096 < 128 && flags < 128
    ensures var e := Or(Or(base, PTE_P), flags);
      e < 0x1_0000_0000 && e / 4096 == base / 4096 && e % 2 == 1 && e % 4096 < 128
      && e % 4096 == Or(Or(base % 4096, PTE_P), flags)
  {
    var a: nat, l: nat := base / 4096, base % 4096;
    assert base == a * 4096 + l;
    assert a < 0x10_0000;
    EntryParts(a, l, PTE_P, flags);
  }

  lemma EntryParts(a: nat, l: nat, p: nat, flags: nat)
    requires l < 128 && p < 128 && p % 2 == 1 && flags < 128
    ensures var e := Or(Or(a * 4096 + l, p), flags);
      (a < 0x10_0000 ==> e < 0x1_0000_0000) && e / 4096 == a && e % 2 == 1 && e % 4096 == Or(Or(l, p), flags) < 128
  {
    OrLow(a, l, p);
    OrLow(a, Or(l, p), flags);
    OrOdd(l, p);
    OrOdd(Or(l, p), flags);
    Split(a, Or(Or(l, p), flags));
  }

  lemma Split(a: nat, n: nat)
    requires n < 4096
    ensures (a * 4096 + n) / 4096 == a && (a * 4096 + n) % 4096 == n && (a * 4096 + n) % 2 == n % 2
  {
  }

  /** Or-ing flags into an entry leaves its address alone. */
  lemma OrLow(address: nat, low: nat, flags: nat)
    requires low < 128 && flags < 128
    ensures Or(address * 4096 + low, flags) == address * 4096 + Or(low, flags)
    ensures Or(low, flags) < 128
  {
    Pow2Values();
    OrHigh(address, low, flags, 12);
    OrBounded(low, flags, 7);
  }

  lemma OrOdd(a: nat, b: nat)
    ensures Or(a, b) % 2 == 1 <==> a % 2 == 1 || b % 2 == 1
  {
  }

  // ---------------------------------------------------------- one vm_map_page

  /** The cache that vm_map_page will use, if any: its frame and the index of
      the entry for the page to be mapped. */
  datatype Cached = NoCache | Cached(frame: nat, index: nat)

  ghost predicate CachedOk(s: Snap, c: Cached, i: nat) {
    c == NoCache
    || (c.frame == s.kc && c.index < 64 && i == 768 + c.index)
    || (c.frame == s.ioc && c.index < 8 && i == 1016 + c.index)
  }

  function PDIRE(va: Word): nat { (va / 0x40_0000) % 1024 }

  function PTBLE(va: Word): nat { (va / 0x1000) % 1024 }

  /** x & 0xFFFFF000 */
  function PageBase(x: Word): (b: Word)
    ensures b % 4096 == 0 && b / 4096 == x / 4096
  {
    x - x % 4096
  }

  /** va += 4096, on 32 bits */
  function NextPage(va: Word): Word {
    (va + 4096) % 0x1_0000_0000
  }

  /** The page number of va; its directory and table indices. */
  function Page(va: Word): (p: nat)
    ensures p < NPAGES && p / 1024 == PDIRE(va) && p % 1024 == PTBLE(va)
  {
    va / 0x1000
  }

  /** A cache argument: none, or one of the two cache frames. The kernel cache's
      limit is one past its last table, so that address is excluded. */
  ghost predicate IsCache(s: Snap, frame: nat, va: Word) {
    frame == 0 || (frame == s.kc && va != KHALF + KHEAP) || frame == s.ioc
  }

  /** The cache entry that vm_map_page looks at when the directory has none. */
  ghost function CacheFor(s: Snap, frame: nat, va: Word): (c: Cached)
    requires Inv(s) && IsCache(s, frame, va)
    ensures CachedOk(s, c, Page(va) / 1024)
  {
    if frame != 0 && s.mem[frame][CACHE_BASE] <= va <= s.mem[frame][CACHE_LIMIT] then
      Cached(frame, PDIRE(va - s.mem[frame][CACHE_BASE]))
    else NoCache
  }

  /** The kernel's cache serves 0xC0000000 to 0xCFFFFFFF, the I/O cache all from
      0xFE000000 on, each 4 MiB its own entry. */
  lemma CacheUsedIff(s: Snap, frame: nat, va: Word)
    requires Inv(s) && IsCache(s, frame, va)
    ensures CacheFor(s, frame, va) ==
      if frame == s.kc && 0xC000_0000 <= va < 0xD000_0000 then Cached(frame, (va - 0xC000_0000) / 0x40_0000)
      else if frame == s.ioc && 0xFE00_0000 <= va then Cached(frame, (va - 0xFE00_0000) / 0x40_0000)
      else NoCache
  {
  }

  /** The directory has no table and neither has the cache: a frame is needed. */
  ghost predicate NeedsTable(s: Snap, d: nat, i: nat, c: Cached)
    requires Inv(s) && d in s.dirs && i < 1024 && CachedOk(s, c, i)
  {
    !Present(s.mem[d][i]) && (c == NoCache || !Present(s.mem[c.frame][c.index]))
  }

  /** The directory has no table but the cache has: it gets attached. */
  ghost predicate Attaches(s: Snap, d: nat, i: nat, c: Cached)
    requires Inv(s) && d in s.dirs && i < 1024 && CachedOk(s, c, i)
  {
    !Present(s.mem[d][i]) && c != NoCache && Present(s.mem[c.frame][c.index])
  }

  ghost predicate Mappable(s: Snap, d: nat, p: nat, flags: Word, c: Cached) {
    && Inv(s) && d in s.dirs && p < NPAGES && flags < 128 && CachedOk(s, c, p / 1024)
    && !(NeedsTable(s, d, p / 1024, c) && s.free == {})
  }

  /** The table that receives the entry. */
  ghost function TableFor(s: Snap, d: nat, i: nat, c: Cached): (t: nat)
    requires Inv(s) && d in s.dirs && i < 1024 && CachedOk(s, c, i)
    requires !(NeedsTable(s, d, i, c) && s.free == {})
    ensures 0 < t < NF && t != d && t != s.kc && t != s.ioc && t !in s.dirs
    ensures t in s.free || (t in s.slot && s.slot[t] == i)
    ensures NeedsTable(s, d, i, c) <==> t in s.free
  {
    if Present(s.mem[d][i]) then
      assert EntryOk(s, s.mem[d][i], i);
      Target(s.mem[d][i])
    else if Attaches(s, d, i, c) then
      assert EntryOk(s, s.mem[c.frame][c.index], i);
      Target(s.mem[c.frame][c.index])
    else Least(s.free)
  }

  /** The directory entry after the call. */
  ghost function PdeFor(s: Snap, d: nat, i: nat, flags: Word, c: Cached): (e: Word)
    requires Inv(s) && d in s.dirs && i < 1024 && CachedOk(s, c, i) && flags < 128
    requires !(NeedsTable(s, d, i, c) && s.free == {})
    ensures Present(e) && Target(e) == TableFor(s, d, i, c) && e % 4096 < 128
  {
    if Present(s.mem[d][i]) then
      assert EntryOk(s, s.mem[d][i], i);
      s.mem[d][i]
    else if Attaches(s, d, i, c) then
      assert EntryOk(s, s.mem[c.frame][c.index], i);
      Entry(s.mem[c.frame][c.index], flags)
    else Entry(Least(s.free) * 4096, flags)
  }

  /** The contents of frame f after a successful vm_map_page. */
  ghost function FrameAfter(s: Snap, d: nat, p: nat, pte: Word, flags: Word, c: Cached, f: nat): Frame
    requires Mappable(s, d, p, flags, c) && f < NF
  {
    var i := p / 1024;
    var t := TableFor(s, d, i, c);
    if f == t then (if t in s.free then ZeroFrame() else s.mem[t])[p % 1024 := pte]
    else if f == d then s.mem[d][i := PdeFor(s, d, i, flags, c)]
    else if c != NoCache && f == c.frame && !Present(s.mem[d][i]) then
      s.mem[f][c.index := PdeFor(s, d, i, flags, c)]
    else s.mem[f]
  }

  /** s' is the state after a successful vm_map_page of entry pte at page p. */
  ghost predicate Mapped(s: Snap, s': Snap, d: nat, p: nat, pte: Word, flags: Word, c: Cached) {
    && Mappable(s, d, p, flags, c)
    && var t := TableFor(s, d, p / 1024, c);
    && |s'.mem| == NF
    && (forall f: nat :: f < NF ==> s'.mem[f] == FrameAfter(s, d, p, pte, flags, c, f))
    && s'.free == s.free - {t}
    && s'.slot == s.slot[t := p / 1024]
    && s'.dirs == s.dirs && s'.kc == s.kc && s'.ioc == s.ioc
  }

  /** Memory once vm_map_page has its table: the zeroed table, the directory
      entry and the cache entry are written, in that order. */
  ghost function WithTable(s: Snap, d: nat, p: nat, flags: Word, c: Cached): seq<Frame>
    requires Mappable(s, d, p, flags, c)
  {
    var i := p / 1024;
    if Present(s.mem[d][i]) then s.mem else
    WithEntries(if TableFor(s, d, i, c) in s.free then s.mem[TableFor(s, d, i, c) := ZeroFrame()] else s.mem,
                d, i, c, PdeFor(s, d, i, flags, c))
  }

  ghost function WithEntries(m: seq<Frame>, d: nat, i: nat, c: Cached, e: Word): seq<Frame>
    requires d < |m| && i < 1024 && (c != NoCache ==> c.frame < |m| && c.index < 1024)
  {
    var m2 := m[d := m[d][i := e]];
    if c == NoCache then m2 else m2[c.frame := m2[c.frame][c.index := e]]
  }

  /** m is the state once vm_map_page has its table. */
  ghost predicate HasTable(s: Snap, m: Snap, d: nat, p: nat, flags: Word, c: Cached) {
    && Mappable(s, d, p, flags, c)
    && var t := TableFor(s, d, p / 1024, c);
    && |m.mem| == NF
    && m == s.(mem := WithTable(s, d, p, flags, c), free := s.free - {t}, slot := s.slot[t := p / 1024])
  }

  /** The last write, of the page-table entry, completes the mapping. */
  lemma MappedByWrites(s: Snap, m: Snap, s': Snap, d: nat, p: nat, pte: Word, flags: Word, c: Cached)
    requires Holds(HasTable(s, m, d, p, flags, c))
    requires var t := TableFor(s, d, p / 1024, c);
      s' == m.(mem := m.mem[t := m.mem[t][p % 1024 := pte]])
    ensures Holds(Mapped(s, s', d, p, pte, flags, c))
  {
  }

  /** Everything vm_map_page promises: it succeeds exactly when the entry can be
      mapped, and on failure nothing has changed. */
  ghost predicate MapPageResult(s: Snap, s': Snap, d: nat, va: Word, pte: Word, flags: Word, frame: nat, rc: int) {
    && Inv(s) && IsCache(s, frame, va)
    && var c := CacheFor(s, frame, va);
    && (rc == 0 <==> Mappable(s, d, Page(va), flags, c))
    && (rc == 0 ==> Mapped(s, s', d, Page(va), pte, flags, c))
    && (rc != 0 ==> s' == s && rc == if c != NoCache then 1 else 2)
  }
}
