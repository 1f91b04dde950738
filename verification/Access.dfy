/** What the pages of an address space allow: reading, writing, and whether user
    programs are let in (Intel SDM Vol. 3A, section 4.6). */
module Access {
  import opened Wrappers
  import opened Words
  import opened Paging
  import opened Mapping
  import opened Directories
  import opened Loading
  import opened Forking
  import opened TaskMemory

  /** Between any two kernel operations the page-table entry alone decides below
      KHALF; above it no page is open to user programs. */
  lemma EntryDecides(s: Snap, d: nat, p: nat)
    requires Valid(s) && d in s.dirs && p < NPAGES
    ensures |s.mem| == NF && d < NF
    ensures Rights(s.mem, d, p) == match Walk(s.mem, d, p)
      case None => None
      case Some(e) => Some(Access(Writable(e), p < 768 * 1024 && UserMode(e)))
  {
    assert DirRights(s, d, p / 1024);
  }

  /** Every directory lets the kernel, and nobody else, write the whole kernel and
      I/O windows. */
  lemma WindowRights(s: Snap, d: nat, p: nat)
    requires Valid(s) && d in s.dirs && (0xC_0000 <= p < 0xD_0000 || 0xF_E000 <= p < NPAGES)
    ensures |s.mem| == NF && d < NF
    ensures Rights(s.mem, d, p) == Some(Access(true, false))
  {
    EntryDecides(s, d, p);
    var w := if p < 0xD_0000 then KernelWindow(s) else IoWindow(s);
    assert Complete(s, w, d) && w.Has(p);
    assert Walk(s.mem, d, p) == Some(w.Pte(p));
    LowRights(w.Pte(p));
    Split(p - w.delta, 3);
  }

  /** vm_new_pdir: nothing else is mapped. */
  lemma NewDirectoryRights(s: Snap, s': Snap, d: nat, p: nat)
    requires Built(s, s', Some(d)) && p < NPAGES
    ensures |s'.mem| == NF && d < NF
    ensures Rights(s'.mem, d, p) ==
      if 0xC_0000 <= p < 0xD_0000 || 0xF_E000 <= p then Some(Access(true, false)) else None
  {
    if 0xC_0000 <= p < 0xD_0000 || 0xF_E000 <= p {
      WindowRights(s', d, p);
    } else {
      assert Walk(s'.mem, d, p) == BootWalk(p) == None;
    }
  }

  /** A page mapped with user flags is open to user programs, for writing too. */
  lemma UserPageRights(s: Snap, s': Snap, d: nat, va: Word, pa: Word)
    requires Valid(s) && va < KHALF
    requires MapPageResult(s, s', d, va, Entry(PageBase(pa), UserFlags()), UserFlags(), 0, 0)
    ensures |s'.mem| == NF && d < NF
    ensures Rights(s'.mem, d, Page(va)) == Some(Access(true, true))
  {
    MapRights(s, s', d, Page(va), pa, UserFlags(), NoCache);
    FlagRights();
    assert DirRights(s, d, Page(va) / 1024);
  }

  /** So are the pages that the loader maps, */
  lemma LoadedRights(s0: Snap, s: Snap, d: nat, c: seq<Byte>, q: nat)
    requires SinglePage(c) && Holds(LoadState(s0, s, d, c, PhNum(c))) && LoadsPage(c, q)
    ensures |s.mem| == NF && d < NF && q < NPAGES
    ensures Rights(s.mem, d, q) == Some(Access(true, true))
  {
    var m :| 0 <= m < PhNum(c) && Seg(c, m).Loads() && Page(Seg(c, m).vaddr) == q;
    var l := LastOfPage(c, q, PhNum(c), m);
    assert SegLoaded(s, d, c, Seg(c, l));
    UserEntryRights(s, d, q);
  }

  /** A page below KHALF whose entry has the flags present, writable and user */
  lemma UserEntryRights(s: Snap, d: nat, q: nat)
    requires Holds(Valid(s)) && d in s.dirs && q < 768 * 1024 && |s.mem| == NF && d < NF
    requires Walk(s.mem, d, q).Some? && Walk(s.mem, d, q).value % 4096 == 7
    ensures Rights(s.mem, d, q) == Some(Access(true, true))
  {
    EntryDecides(s, d, q);
    LowRights(Walk(s.mem, d, q).value);
  }

  /** the stack of a new task, */
  lemma NewStackRights(s: Snap, s': Snap, task: nat, kstack: nat, c: nat, u: nat, ctx: nat)
    requires Holds(Allocated(s, s', task, kstack, c, u, ctx)) && u < NF
    ensures |s'.mem| == NF && c < NF
    ensures Rights(s'.mem, c, u) == Some(Access(true, true))
  {
    Split(u, 7);
    UserEntryRights(s', c, u);
  }

  /** and that of a forked child, whose copied pages allow what the parent's do. */
  lemma ForkedRights(s: Snap, s': Snap, p: nat, c: nat, n: nat, stack: nat, k: nat)
    requires Holds(Valid(s)) && Holds(ForkedSpace(s, s', p, c, n, stack)) && k < n && RUN + k != stack
    ensures |s.mem| == NF && |s'.mem| == NF && p < NF && c < NF && RUN + k < NPAGES
    ensures Rights(s'.mem, c, RUN + k) == Rights(s.mem, p, RUN + k)
    ensures stack < NF ==> Rights(s'.mem, c, stack) == Some(Access(true, true))
  {
    assert ChildPage(s, s', p, c, n, k);
    RetargetRights(RunFrame(s', c, k), RunEntry(s, p, n, k));
    EntryDecides(s, p, RUN + k);
    EntryDecides(s', c, RUN + k);
    if stack < NF {
      Split(stack, 7);
      UserEntryRights(s', c, stack);
    }
  }

  /** A page that leads where it did allows what it did. */
  lemma SameRights(s: Snap, s': Snap, d: nat, p: nat)
    requires Holds(Valid(s)) && Holds(Valid(s')) && d in s.dirs && d in s'.dirs && p < NPAGES
    requires |s.mem| == NF && |s'.mem| == NF && d < NF && Walk(s'.mem, d, p) == Walk(s.mem, d, p)
    ensures Rights(s'.mem, d, p) == Rights(s.mem, d, p)
  {
    EntryDecides(s, d, p);
    EntryDecides(s', d, p);
  }
}
