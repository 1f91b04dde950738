/** The steps by which the loader and fork build the user half of an address
    space: taking a frame, writing it, mapping it below KHALF. */
module UserMaps {
  import opened Wrappers
  import opened Words
  import opened Paging
  import opened Mapping
  import opened Windows
  import opened Directories

  /** s' is s with frame f handed out. */
  ghost predicate Taken(s: Snap, s': Snap, f: nat) {
    f in s.free && s' == s.(free := s.free - {f})
  }

  /** s' is s with data frame f overwritten. */
  ghost predicate Written(s: Snap, s': Snap, f: nat) {
    && Roles(s) && IsData(s, f) && |s'.mem| == NF
    && s' == s.(mem := s.mem[f := s'.mem[f]])
  }

  /** s' is s after vm_map_page, without a cache, of a page below KHALF. */
  ghost predicate UserMapped(s: Snap, s': Snap, d: nat, p: nat, pte: Word) {
    && p < 768 * 1024 && Present(pte)
    && Mapped(s, s', d, p, pte, UserFlags(), NoCache)
  }

  /** All directories of s keep their kernel half and none is lost or added. */
  ghost predicate SameDirs(s: Snap, s': Snap) {
    && Roles(s) && Roles(s') && s'.dirs == s.dirs && s'.kc == s.kc && s'.ioc == s.ioc && s'.free <= s.free
    && (forall d, i :: d in s.dirs && 768 <= i < 1024 ==> s'.mem[d][i] == s.mem[d][i])
  }

  lemma TakenKeeps(s: Snap, s': Snap, f: nat)
    requires Holds(Valid(s)) && Taken(s, s', f)
    ensures Holds(Valid(s')) && SameDirs(s, s') && IsData(s', f)
    ensures forall g: nat :: IsData(s, g) ==> IsData(s', g) && g != f
  {
    TakenInv(s, s', f);
    forall x, i | x in s'.dirs && 0 <= i < 1024 ensures DirRights(s', x, i) {
      assert DirRights(s, x, i);
    }
    forall x | x in s'.dirs ensures Complete(s', KernelWindow(s'), x) && Complete(s', IoWindow(s'), x) {
      assert Complete(s, KernelWindow(s), x) && Complete(s, IoWindow(s), x);
    }
  }

  lemma TakenInv(s: Snap, s': Snap, f: nat)
    requires Inv(s) && Taken(s, s', f)
    ensures Inv(s')
  {
    forall x, i | x in s'.dirs && 0 <= i < 1024 ensures EntryOk(s', s'.mem[x][i], i) {
      assert EntryOk(s, s.mem[x][i], i);
    }
    forall i | 0 <= i < 64 ensures EntryOk(s', s'.mem[s.kc][i], 768 + i) {
      assert EntryOk(s, s.mem[s.kc][i], 768 + i);
    }
    forall i | 0 <= i < 8 ensures EntryOk(s', s'.mem[s.ioc][i], 1016 + i) {
      assert EntryOk(s, s.mem[s.ioc][i], 1016 + i);
    }
  }

  lemma WrittenInv(s: Snap, s': Snap, f: nat)
    requires Inv(s) && Written(s, s', f)
    ensures Inv(s')
  {
    forall x, i | x in s'.dirs && 0 <= i < 1024 ensures EntryOk(s', s'.mem[x][i], i) {
      assert EntryOk(s, s.mem[x][i], i);
    }
    forall i | 0 <= i < 64 ensures EntryOk(s', s'.mem[s.kc][i], 768 + i) {
      assert EntryOk(s, s.mem[s.kc][i], 768 + i);
    }
    forall i | 0 <= i < 8 ensures EntryOk(s', s'.mem[s.ioc][i], 1016 + i) {
      assert EntryOk(s, s.mem[s.ioc][i], 1016 + i);
    }
  }

  /** Writing a data frame changes no translation. */
  lemma WrittenWalks(s: Snap, s': Snap, f: nat, x: nat, p: nat)
    requires Inv(s) && Written(s, s', f) && x in s.dirs && p < NPAGES
    ensures Walk(s'.mem, x, p) == Walk(s.mem, x, p)
  {
    assert EntryOk(s, s.mem[x][p / 1024], p / 1024);
  }

  lemma WrittenKeeps(s: Snap, s': Snap, f: nat)
    requires Holds(Valid(s)) && Written(s, s', f)
    ensures Holds(Valid(s')) && SameDirs(s, s')
    ensures forall g: nat :: IsData(s, g) ==> IsData(s', g)
    ensures forall x, p :: x in s.dirs && 0 <= p < NPAGES ==> Walk(s'.mem, x, p) == Walk(s.mem, x, p)
  {
    WrittenInv(s, s', f);
    forall x, p | x in s.dirs && 0 <= p < NPAGES ensures Walk(s'.mem, x, p) == Walk(s.mem, x, p) {
      WrittenWalks(s, s', f, x, p);
    }
    assert TranslationsKept(s, s');
    forall x, i | x in s'.dirs && 0 <= i < 1024 ensures DirRights(s', x, i) {
      assert DirRights(s, x, i);
    }
    KeptValid(s, s');
  }

  /** With a free frame a user page can always be mapped. */
  lemma CanMapUser(s: Snap, d: nat, va: Word)
    requires Inv(s) && d in s.dirs
    ensures CacheFor(s, 0, va) == NoCache
    ensures s.free != {} ==> Mappable(s, d, Page(va), UserFlags(), NoCache)
  {
  }

  lemma TakenCount(s: Snap, s': Snap, f: nat)
    requires Taken(s, s', f)
    ensures |s'.free| == |s.free| - 1
  {
    assert s.free == s'.free + {f};
  }

  lemma UserCount(s: Snap, s': Snap, d: nat, p: nat, pte: Word)
    requires UserMapped(s, s', d, p, pte)
    ensures |s'.free| >= |s.free| - 1
  {
    TakesOne(s.free, s'.free, TableFor(s, d, p / 1024, NoCache));
  }

  /** A user mapping is a plain update of the directory's translation. */
  lemma UserWalks(s: Snap, s': Snap, d: nat, p: nat, pte: Word, q: nat)
    requires UserMapped(s, s', d, p, pte) && q < NPAGES
    ensures Walk(s'.mem, d, q) == if q == p then Some(pte) else Walk(s.mem, d, q)
  {
    MapWalks(s, s', d, p, pte, UserFlags(), NoCache, q);
  }

  /** It can reach another directory only through a shared table. */
  lemma UserWalksElsewhere(s: Snap, s': Snap, d: nat, p: nat, pte: Word, x: nat, q: nat)
    requires UserMapped(s, s', d, p, pte) && q < NPAGES && x in s.dirs && x != d
    ensures q != p || !Present(s.mem[x][p / 1024]) || !Present(s.mem[d][p / 1024])
            || Target(s.mem[x][p / 1024]) != Target(s.mem[d][p / 1024])
            ==> Walk(s'.mem, x, q) == Walk(s.mem, x, q)
  {
    MapWalksElsewhere(s, s', d, p, pte, UserFlags(), NoCache, x, q);
    assert EntryOk(s, s.mem[x][p / 1024], p / 1024);
  }

  lemma UserKeepsData(s: Snap, s': Snap, d: nat, p: nat, pte: Word)
    requires UserMapped(s, s', d, p, pte)
    ensures DataKept(s, s')
  {
    forall f: nat | IsData(s, f) ensures IsData(s', f) && s'.mem[f] == s.mem[f] {
      MapKeepsData(s, s', d, p, pte, UserFlags(), NoCache, f);
    }
  }

  lemma UserKeepsKernelHalf(s: Snap, s': Snap, d: nat, p: nat, pte: Word, x: nat, q: nat)
    requires UserMapped(s, s', d, p, pte) && x in s.dirs && 768 * 1024 <= q < NPAGES
    ensures Walk(s'.mem, x, q) == Walk(s.mem, x, q)
  {
    if x == d {
      UserWalks(s, s', d, p, pte, q);
    } else {
      UserWalksElsewhere(s, s', d, p, pte, x, q);
    }
  }

  /** A user mapping keeps every directory's kernel and I/O views. */
  lemma UserKeepsValid(s: Snap, s': Snap, d: nat, p: nat, pte: Word)
    requires Holds(Valid(s)) && Holds(UserMapped(s, s', d, p, pte))
    ensures Holds(Valid(s')) && SameDirs(s, s')
  {
    MapKeepsInv(s, s', d, p, pte, UserFlags(), NoCache);
    MapKeepsRights(s, s', d, p, pte, UserFlags(), NoCache);
    forall x | x in s'.dirs ensures Complete(s', KernelWindow(s'), x) && Complete(s', IoWindow(s'), x) {
      assert Complete(s, KernelWindow(s), x) && Complete(s, IoWindow(s), x);
      forall q | 768 * 1024 <= q < NPAGES ensures Walk(s'.mem, x, q) == Walk(s.mem, x, q) {
        UserKeepsKernelHalf(s, s', d, p, pte, x, q);
      }
    }
  }
}
