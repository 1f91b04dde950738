/** What one successful vm_map_page does, seen through the page walk. */
module Mapping {
  import opened Wrappers
  import opened Words
  import opened Paging

  /** Frames that are neither free nor used for paging: their contents. */
  ghost predicate IsData(s: Snap, f: nat) {
    f < NF && f !in s.free && f !in s.dirs && f !in s.slot && f != s.kc && f != s.ioc
  }

  lemma MapKeepsRoles(s: Snap, s': Snap, d: nat, p: nat, pte: Word, flags: Word, c: Cached)
    requires Mapped(s, s', d, p, pte, flags, c)
    ensures Roles(s')
  {
  }

  lemma MapKeepsDirs(s: Snap, s': Snap, d: nat, p: nat, pte: Word, flags: Word, c: Cached)
    requires Mapped(s, s', d, p, pte, flags, c)
    ensures Roles(s') && DirsOk(s')
  {
    MapKeepsRoles(s, s', d, p, pte, flags, c);
    forall x, i | x in s'.dirs && 0 <= i < 1024 ensures EntryOk(s', s'.mem[x][i], i) {
      assert EntryOk(s, s.mem[x][i], i);
    }
  }

  lemma MapKeepsCache(s: Snap, s': Snap, d: nat, p: nat, pte: Word, flags: Word, c: Cached, w: Window)
    requires Mapped(s, s', d, p, pte, flags, c) && (w == KernelWindow(s) || w == IoWindow(s))
    ensures Roles(s') && CacheOk(s', w)
    ensures forall i :: 64 <= i < 1024 ==> s'.mem[w.cache][i] == s.mem[w.cache][i]
  {
    MapKeepsRoles(s, s', d, p, pte, flags, c);
    forall i | 0 <= i < w.count ensures EntryOk(s', s'.mem[w.cache][i], w.first + i) {
      assert EntryOk(s, s.mem[w.cache][i], w.first + i);
    }
  }

  /** vm_map_page keeps the roles of all frames in use. */
  lemma MapKeepsInv(s: Snap, s': Snap, d: nat, p: nat, pte: Word, flags: Word, c: Cached)
    requires Mapped(s, s', d, p, pte, flags, c)
    ensures Inv(s')
  {
    MapKeepsDirs(s, s', d, p, pte, flags, c);
    MapKeepsCache(s, s', d, p, pte, flags, c, KernelWindow(s));
    MapKeepsCache(s, s', d, p, pte, flags, c, IoWindow(s));
  }

  /** What a mapping writes: one word of the table, which starts zeroed if it is
      new; and, only if the directory had none, one word of the directory and the
      same into one word of the cache. */
  lemma MapTouches(s: Snap, s': Snap, d: nat, p: nat, pte: Word, flags: Word, c: Cached, f: nat, j: nat)
    requires Mapped(s, s', d, p, pte, flags, c) && f < NF && j < 1024
    ensures var i, t := p / 1024, TableFor(s, d, p / 1024, c);
      && s'.mem[t][p % 1024] == pte && Target(s'.mem[d][i]) == t
      && (f == t && j != p % 1024 ==> s'.mem[f][j] == if t in s.free then 0 else s.mem[f][j])
      && (f == d && (j != i || Present(s.mem[d][i])) ==> s'.mem[f][j] == s.mem[f][j])
      && (c != NoCache && f == c.frame && (j != c.index || Present(s.mem[d][i])) ==> s'.mem[f][j] == s.mem[f][j])
      && (c != NoCache && !Present(s.mem[d][i]) ==> s'.mem[c.frame][c.index] == s'.mem[d][i])
      && (f != t && f != d && (c == NoCache || f != c.frame) ==> s'.mem[f] == s.mem[f])
  {
  }

  /** Or-ing flags into an entry adds their rights. */
  lemma EntryRights(base: Word, flags: Word)
    requires base % 4096 < 128 && flags < 128
    ensures Writable(Entry(base, flags)) <==> Writable(base) || Writable(flags)
    ensures UserMode(Entry(base, flags)) <==> UserMode(base) || UserMode(flags)
  {
    EntryBits(base, flags);
    BitOfOr(Or(base, PTE_P), flags, 1);
    BitOfOr(Or(base, PTE_P), flags, 2);
    BitOfOr(base, PTE_P, 1);
    BitOfOr(base, PTE_P, 2);
    FlagRights();
  }

  lemma FlagRights()
    ensures !Writable(PTE_P) && !UserMode(PTE_P) && Writable(PTE_W) && !UserMode(PTE_W)
    ensures Writable(UserFlags()) && UserMode(UserFlags())
  {
    assert Bit(6, 1) && Bit(6, 2) && Bit(2, 1) && !Bit(2, 2) && !Bit(1, 1) && !Bit(1, 2);
  }

  lemma PageHasNoRights(base: Word)
    requires base % 4096 == 0
    ensures !Writable(base) && !UserMode(base)
  {
    assert base == base / 4096 * 4096;
    assert base / 2 % 2 == 0 && base / 2 / 2 % 2 == 0;
    assert Bit(base, 1) == Bit(base / 2, 0) && Bit(base, 2) == Bit(base / 2, 1) == Bit(base / 2 / 2, 0);
  }

  /** The flags the kernel maps page p with */
  ghost predicate KernelFlags(p: nat, flags: Word) {
    flags == if p < 768 * 1024 then UserFlags() else PTE_W
  }

  /** The directory entry of a table that is new, or attached from the cache */
  lemma PdeRights(s: Snap, d: nat, i: nat, flags: Word, c: Cached)
    requires Inv(s) && d in s.dirs && i < 1024 && CachedOk(s, c, i) && flags < 128
    requires !(NeedsTable(s, d, i, c) && s.free == {})
    ensures var e := PdeFor(s, d, i, flags, c);
      if Present(s.mem[d][i]) then e == s.mem[d][i]
      else
        && (Writable(e) <==> Writable(flags) || (Attaches(s, d, i, c) && Writable(s.mem[c.frame][c.index])))
        && (UserMode(e) <==> UserMode(flags) || (Attaches(s, d, i, c) && UserMode(s.mem[c.frame][c.index])))
  {
    if Attaches(s, d, i, c) {
      assert EntryOk(s, s.mem[c.frame][c.index], i);
      EntryRights(s.mem[c.frame][c.index], flags);
    } else if NeedsTable(s, d, i, c) {
      PageHasNoRights(TableFor(s, d, i, c) * 4096);
      EntryRights(TableFor(s, d, i, c) * 4096, flags);
    }
  }

  /** What a mapped page allows: what the flags do, and no more than the directory
      entry did if there was one. */
  lemma MapRights(s: Snap, s': Snap, d: nat, p: nat, pa: Word, flags: Word, c: Cached)
    requires flags < 128 && Mapped(s, s', d, p, Entry(PageBase(pa), flags), flags, c)
    ensures var pde := s.mem[d][p / 1024];
      Rights(s'.mem, d, p) == Some(Access(Writable(flags) && (Present(pde) ==> Writable(pde)),
                                          UserMode(flags) && (Present(pde) ==> UserMode(pde))))
  {
    MapWalks(s, s', d, p, Entry(PageBase(pa), flags), flags, c, p);
    PdeRights(s, d, p / 1024, flags, c);
    PageHasNoRights(PageBase(pa));
    EntryRights(PageBase(pa), flags);
  }

  /** With the flags the kernel uses all directory entries keep their rights. */
  lemma MapKeepsRights(s: Snap, s': Snap, d: nat, p: nat, pte: Word, flags: Word, c: Cached)
    requires Mapped(s, s', d, p, pte, flags, c) && RightsOk(s) && KernelFlags(p, flags)
    ensures Roles(s') && RightsOk(s')
  {
    MapKeepsRoles(s, s', d, p, pte, flags, c);
    NewPdeRights(s, d, p, flags, c);
    forall x, i | x in s'.dirs && 0 <= i < 1024 ensures DirRights(s', x, i) {
      assert DirRights(s, x, i);
    }
  }

  lemma NewPdeRights(s: Snap, d: nat, p: nat, flags: Word, c: Cached)
    requires Mappable(s, d, p, flags, c) && RightsOk(s) && KernelFlags(p, flags)
    ensures RightsAt(PdeFor(s, d, p / 1024, flags, c), p / 1024)
  {
    FlagRights();
    PdeRights(s, d, p / 1024, flags, c);
    assert DirRights(s, d, p / 1024);
  }

  /** A directory has table t at index i. */
  predicate Shares(mem: seq<Frame>, x: nat, i: nat, t: nat)
    requires x < |mem| && i < 1024
  {
    Present(mem[x][i]) && Target(mem[x][i]) == t
  }

  /** The walks of the directory that was mapped in: page p gets the entry, the
      pages of an attached cached table come along, the rest is as before. */
  lemma MapWalks(s: Snap, s': Snap, d: nat, p: nat, pte: Word, flags: Word, c: Cached, q: nat)
    requires Mapped(s, s', d, p, pte, flags, c) && Present(pte) && q < NPAGES
    ensures Walk(s'.mem, d, q) ==
      if q == p then Some(pte)
      else if q / 1024 == p / 1024 && Attaches(s, d, p / 1024, c)
        then Lookup(s.mem, TableFor(s, d, p / 1024, c), q % 1024)
      else Walk(s.mem, d, q)
  {
    var i := p / 1024;
    var t := TableFor(s, d, i, c);
    assert EntryOk(s, s.mem[d][q / 1024], q / 1024);
    if q / 1024 != i && Present(s.mem[d][q / 1024]) {
    }
  }

  /** Any other directory changes only if it shares the table, and then only at
      page p. */
  lemma MapWalksElsewhere(s: Snap, s': Snap, d: nat, p: nat, pte: Word, flags: Word, c: Cached, x: nat, q: nat)
    requires Mapped(s, s', d, p, pte, flags, c) && Present(pte) && q < NPAGES && x in s.dirs && x != d
    ensures Walk(s'.mem, x, q) ==
      if q == p && Shares(s.mem, x, p / 1024, TableFor(s, d, p / 1024, c)) then Some(pte)
      else Walk(s.mem, x, q)
  {
    assert EntryOk(s, s.mem[x][q / 1024], q / 1024);
    if Present(s.mem[x][q / 1024]) {
    }
  }

  /** "Every other page of the directory walks as before" holds exactly when no
      cached table with other pages in it is attached. */
  lemma MapIsUpdateIff(s: Snap, s': Snap, d: nat, p: nat, pte: Word, flags: Word, c: Cached)
    requires Mapped(s, s', d, p, pte, flags, c) && Present(pte)
    ensures
      (forall q :: 0 <= q < NPAGES && q != p ==>
        Walk(s'.mem, d, q) == Walk(s.mem, d, q))
      <==>
      (Attaches(s, d, p / 1024, c) ==>
        forall j :: 0 <= j < 1024 && j != p % 1024 ==> Lookup(s.mem, TableFor(s, d, p / 1024, c), j) == None)
  {
    var i := p / 1024;
    if Attaches(s, d, i, c) {
      forall j | 0 <= j < 1024 && j != p % 1024
        ensures Walk(s'.mem, d, i * 1024 + j) == Lookup(s.mem, TableFor(s, d, i, c), j)
        ensures Walk(s.mem, d, i * 1024 + j) == None
      {
        MapWalks(s, s', d, p, pte, flags, c, i * 1024 + j);
      }
    }
    forall q | 0 <= q < NPAGES && q != p
      ensures Walk(s'.mem, d, q) ==
        if q / 1024 == i && Attaches(s, d, i, c) then Lookup(s.mem, TableFor(s, d, i, c), q % 1024)
        else Walk(s.mem, d, q)
    {
      MapWalks(s, s', d, p, pte, flags, c, q);
    }
  }

  /** Data frames keep their contents, their role, and stay allocated. */
  lemma MapKeepsData(s: Snap, s': Snap, d: nat, p: nat, pte: Word, flags: Word, c: Cached, f: nat)
    requires Mapped(s, s', d, p, pte, flags, c) && IsData(s, f)
    ensures s'.mem[f] == s.mem[f]
    ensures IsData(s', f)
  {
  }
}
