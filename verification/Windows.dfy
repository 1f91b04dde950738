/** The loops of vm_map_kernel and vm_map_io: filling one cached window of a
    directory page by page. Both are the same walk over a Window. */
module Windows {
  import opened Wrappers
  import opened Words
  import opened Paging
  import opened Mapping

  ghost predicate IsWindow(s: Snap, w: Window) {
    w == KernelWindow(s) || w == IoWindow(s)
  }

  /** Cache entries among the first n with no table yet. */
  ghost function Missing(cache: Frame, n: nat): (m: nat)
    requires n <= 1024
    ensures m <= n
  {
    if n == 0 then 0 else Missing(cache, n - 1) + (if Present(cache[n - 1]) then 0 else 1)
  }

  lemma {:induction false} MissingMonotone(cache: Frame, n: nat, m: nat)
    requires n <= m <= 1024
    ensures Missing(cache, n) <= Missing(cache, m)
  {
    if n < m { MissingMonotone(cache, n, m - 1); }
  }

  lemma {:induction false} MissingNone(cache: Frame, n: nat)
    requires n <= 1024 && forall i :: 0 <= i < n ==> Present(cache[i])
    ensures Missing(cache, n) == 0
  {
    if n > 0 { MissingNone(cache, n - 1); }
  }

  lemma {:induction false} MissingAll(cache: Frame, n: nat)
    requires n <= 1024 && forall i :: 0 <= i < n ==> !Present(cache[i])
    ensures Missing(cache, n) == n
  {
    if n > 0 { MissingAll(cache, n - 1); }
  }

  /** The tables begun after k pages. */
  function Tables(k: nat): nat {
    (k + 1023) / 1024
  }

  /** Where the walk over the window starts: the directory is not mapped in it,
      every other directory is complete in it. */
  ghost predicate CanFill(s: Snap, w: Window, d: nat) {
    && Inv(s) && RightsOk(s) && IsWindow(s, w) && d in s.dirs
    && (forall i :: w.first <= i < w.first + w.count ==> !Present(s.mem[d][i]))
    && (forall x :: x in s.dirs && x != d ==> Complete(s, w, x))
  }

  ghost predicate Frames(s0: Snap, s: Snap, d: nat) {
    && Inv(s) && RightsOk(s) && d in s.dirs && s.dirs == s0.dirs && s.kc == s0.kc && s.ioc == s0.ioc
    && s.free <= s0.free
    && (forall t :: t in s0.slot ==> t in s.slot && s.slot[t] == s0.slot[t])
    && (forall f: nat :: IsData(s0, f) ==> IsData(s, f) && f < |s0.mem| && s.mem[f] == s0.mem[f])
  }

  ghost predicate Done(s: Snap, w: Window, d: nat, k: nat)
    requires d < |s.mem| && k <= w.count * 1024 && w.first + w.count <= 1024 && w.delta <= w.first * 1024
  {
    forall p :: w.first * 1024 <= p < w.first * 1024 + k ==> Walk(s.mem, d, p) == Some(w.Pte(p))
  }

  ghost predicate Rest(s0: Snap, s: Snap, w: Window, d: nat, k: nat)
    requires d < |s.mem| && d < |s0.mem|
  {
    forall p :: 0 <= p < NPAGES && (p / 1024 < w.first || p / 1024 >= w.first + Tables(k)) ==>
      Walk(s.mem, d, p) == Walk(s0.mem, d, p)
  }

  ghost predicate Walks(s0: Snap, s: Snap, w: Window, d: nat, k: nat)
    requires Inv(s0) && Inv(s) && d in s.dirs && s.dirs == s0.dirs && IsWindow(s, w)
    requires k <= w.count * 1024
  {
    Done(s, w, d, k) && Rest(s0, s, w, d, k) && OthersKept(s0, s, d)
  }

  /** No translation of any directory but d has changed. */
  ghost predicate OthersKept(s0: Snap, s: Snap, d: nat)
    requires Inv(s0) && Inv(s) && s.dirs == s0.dirs
  {
    forall x, p :: x in s.dirs && x != d && 0 <= p < NPAGES ==> Walk(s.mem, x, p) == Walk(s0.mem, x, p)
  }

  /** The directory's and the cache's entries: the first Tables(k) of the
      window are present and shared, everything else is untouched. */
  ghost predicate Entries(s0: Snap, s: Snap, w: Window, d: nat, k: nat)
    requires Inv(s0) && Inv(s) && d in s.dirs && s.dirs == s0.dirs && IsWindow(s, w)
    requires k <= w.count * 1024
  {
    && (forall i :: 0 <= i < 1024 && !(w.first <= i < w.first + Tables(k)) ==> s.mem[d][i] == s0.mem[d][i])
    && (forall i :: 0 <= i < Tables(k) ==>
          Present(s.mem[w.cache][i]) && Shares(s.mem, d, w.first + i, Target(s.mem[w.cache][i])))
    && (forall i :: Tables(k) <= i < 1024 ==> s.mem[w.cache][i] == s0.mem[w.cache][i])
    && s.mem[Other(s, w)] == s0.mem[Other(s, w)]
  }

  /** One frame has gone to each table that the cache did not have. */
  ghost predicate Balance(s0: Snap, s: Snap, w: Window, k: nat)
    requires k <= w.count * 1024 && w.cache < |s0.mem| && w.count <= 64
  {
    |s.free| + Missing(s0.mem[w.cache], Tables(k)) == |s0.free|
  }

  /** The cache frame of the other window. */
  ghost function Other(s: Snap, w: Window): nat
    requires IsWindow(s, w)
  {
    if w == KernelWindow(s) then s.ioc else s.kc
  }

  /** The state after k pages of the window have been mapped. */
  ghost predicate Progress(s0: Snap, s: Snap, w: Window, d: nat, k: nat) {
    && CanFill(s0, w, d) && k <= w.count * 1024
    && Frames(s0, s, d)
    && Walks(s0, s, w, d, k)
    && Entries(s0, s, w, d, k)
    && Balance(s0, s, w, k)
  }

  ghost function CacheAt(w: Window, k: nat): Cached {
    Cached(w.cache, k / 1024)
  }

  /** vm_map_page will succeed for page k of the window. */
  ghost predicate Ready(s: Snap, w: Window, d: nat, k: nat) {
    IsWindow(s, w) && k < w.count * 1024 && Mappable(s, d, w.first * 1024 + k, PTE_W, CacheAt(w, k))
  }

  /** s' is the state after mapping page k of the window in s. */
  ghost predicate Next(s: Snap, s': Snap, w: Window, d: nat, k: nat) {
    && Ready(s, w, d, k)
    && Mapped(s, s', d, w.first * 1024 + k, w.Pte(w.first * 1024 + k), PTE_W, CacheAt(w, k))
  }

  /** The directory lacks the table of page k exactly at a 4 MiB boundary, where
      the cache entry is still the one the walk started with. */
  ghost predicate AtTable(s0: Snap, s: Snap, w: Window, d: nat, k: nat)
    requires |s0.mem| == NF && Ready(s, w, d, k)
  {
    && (Present(s.mem[d][w.first + k / 1024]) <==> k % 1024 != 0)
    && (k % 1024 == 0 ==> s.mem[w.cache][k / 1024] == s0.mem[w.cache][k / 1024])
  }

  lemma TablesStep(k: nat)
    ensures Tables(k + 1) == k / 1024 + 1
    ensures Tables(k) == if k % 1024 == 0 then k / 1024 else k / 1024 + 1
  {
  }

  lemma ProgressAtTable(s0: Snap, s: Snap, w: Window, d: nat, k: nat)
    requires Progress(s0, s, w, d, k) && Ready(s, w, d, k)
    ensures AtTable(s0, s, w, d, k)
  {
    TablesStep(k);
    var i := k / 1024;
    if k % 1024 == 0 {
      assert s.mem[d][w.first + i] == s0.mem[d][w.first + i];
    } else {
      assert Shares(s.mem, d, w.first + i, Target(s.mem[w.cache][i]));
    }
  }

  lemma NextFrames(s0: Snap, s: Snap, s': Snap, w: Window, d: nat, k: nat)
    requires Frames(s0, s, d) && Next(s, s', w, d, k)
    ensures Frames(s0, s', d)
  {
    var p, c := w.first * 1024 + k, CacheAt(w, k);
    MapKeepsInv(s, s', d, p, w.Pte(p), PTE_W, c);
    MapKeepsRights(s, s', d, p, w.Pte(p), PTE_W, c);
    forall f: nat | IsData(s0, f) ensures IsData(s', f) && f < |s0.mem| && s'.mem[f] == s0.mem[f] {
      MapKeepsData(s, s', d, p, w.Pte(p), PTE_W, c, f);
    }
  }

  lemma NextWalk(s0: Snap, s: Snap, s': Snap, w: Window, d: nat, k: nat, q: nat)
    requires |s0.mem| == NF && Next(s, s', w, d, k) && AtTable(s0, s, w, d, k) && q < NPAGES
    ensures var p := w.first * 1024 + k;
      && (q == p ==> Walk(s'.mem, d, q) == Some(w.Pte(p)))
      && (q < p || q / 1024 >= w.first + Tables(k + 1) ==> Walk(s'.mem, d, q) == Walk(s.mem, d, q))
  {
    var p := w.first * 1024 + k;
    TablesStep(k);
    MapWalks(s, s', d, p, w.Pte(p), PTE_W, CacheAt(w, k), q);
  }

  lemma NextWalkElsewhere(s: Snap, s': Snap, w: Window, d: nat, k: nat, x: nat, q: nat)
    requires Next(s, s', w, d, k) && x in s.dirs && x != d && q < NPAGES
    requires Walk(s.mem, x, w.first * 1024 + k) == Some(w.Pte(w.first * 1024 + k))
    ensures Walk(s'.mem, x, q) == Walk(s.mem, x, q)
  {
    var p := w.first * 1024 + k;
    MapWalksElsewhere(s, s', d, p, w.Pte(p), PTE_W, CacheAt(w, k), x, q);
  }

  lemma NextWalks(s0: Snap, s: Snap, s': Snap, w: Window, d: nat, k: nat)
    requires CanFill(s0, w, d) && Frames(s0, s, d) && Next(s, s', w, d, k) && Frames(s0, s', d)
    requires Walks(s0, s, w, d, k) && AtTable(s0, s, w, d, k)
    ensures Holds(Walks(s0, s', w, d, k + 1))
  {
    NextDone(s0, s, s', w, d, k);
    NextRest(s0, s, s', w, d, k);
    NextOthers(s0, s, s', w, d, k);
  }

  lemma NextDone(s0: Snap, s: Snap, s': Snap, w: Window, d: nat, k: nat)
    requires |s0.mem| == NF && d < NF && |s'.mem| == NF && Next(s, s', w, d, k) && AtTable(s0, s, w, d, k)
    requires Done(s, w, d, k)
    ensures Holds(Done(s', w, d, k + 1))
  {
    forall q | w.first * 1024 <= q < w.first * 1024 + k + 1 ensures Walk(s'.mem, d, q) == Some(w.Pte(q)) {
      NextWalk(s0, s, s', w, d, k, q);
    }
  }

  lemma NextRest(s0: Snap, s: Snap, s': Snap, w: Window, d: nat, k: nat)
    requires |s0.mem| == NF && d < NF && |s'.mem| == NF && Next(s, s', w, d, k) && AtTable(s0, s, w, d, k)
    requires Rest(s0, s, w, d, k)
    ensures Holds(Rest(s0, s', w, d, k + 1))
  {
    TablesStep(k);
    forall q | 0 <= q < NPAGES && (q / 1024 < w.first || q / 1024 >= w.first + Tables(k + 1))
      ensures Walk(s'.mem, d, q) == Walk(s0.mem, d, q)
    {
      NextWalk(s0, s, s', w, d, k, q);
    }
  }

  lemma NextOthers(s0: Snap, s: Snap, s': Snap, w: Window, d: nat, k: nat)
    requires Inv(s0) && Inv(s) && Inv(s') && s.dirs == s0.dirs == s'.dirs && Next(s, s', w, d, k)
    requires w.first + w.count <= 1024 && w.delta <= w.first * 1024
    requires forall x :: x in s0.dirs && x != d ==> Complete(s0, w, x)
    requires OthersKept(s0, s, d)
    ensures Holds(OthersKept(s0, s', d))
  {
    var p := w.first * 1024 + k;
    forall x, q | x in s.dirs && x != d && 0 <= q < NPAGES
      ensures Walk(s'.mem, x, q) == Walk(s0.mem, x, q)
    {
      assert Complete(s0, w, x) && w.Has(p);
      NextWalkElsewhere(s, s', w, d, k, x, q);
    }
  }

  lemma NextEntries(s0: Snap, s: Snap, s': Snap, w: Window, d: nat, k: nat)
    requires Inv(s0) && s.dirs == s0.dirs && Next(s, s', w, d, k) && Inv(s')
    requires Entries(s0, s, w, d, k) && AtTable(s0, s, w, d, k)
    ensures Holds(Entries(s0, s', w, d, k + 1))
  {
    TablesStep(k);
    NextShared(s0, s, s', w, d, k);
    NextUntouched(s0, s, s', w, d, k);
  }

  lemma NextShared(s0: Snap, s: Snap, s': Snap, w: Window, d: nat, k: nat)
    requires Inv(s0) && s.dirs == s0.dirs && Next(s, s', w, d, k) && Inv(s')
    requires Entries(s0, s, w, d, k) && AtTable(s0, s, w, d, k)
    ensures forall i :: 0 <= i < k / 1024 + 1 ==>
      Present(s'.mem[w.cache][i]) && Shares(s'.mem, d, w.first + i, Target(s'.mem[w.cache][i]))
  {
    forall i | 0 <= i < k / 1024 + 1
      ensures Present(s'.mem[w.cache][i]) && Shares(s'.mem, d, w.first + i, Target(s'.mem[w.cache][i]))
    {
      NextSharedAt(s0, s, s', w, d, k, i);
    }
  }

  lemma NextSharedAt(s0: Snap, s: Snap, s': Snap, w: Window, d: nat, k: nat, i: nat)
    requires Inv(s0) && s.dirs == s0.dirs && Next(s, s', w, d, k) && Inv(s')
    requires Entries(s0, s, w, d, k) && AtTable(s0, s, w, d, k) && i < k / 1024 + 1
    ensures Present(s'.mem[w.cache][i]) && Shares(s'.mem, d, w.first + i, Target(s'.mem[w.cache][i]))
  {
    TablesStep(k);
    if i < Tables(k) {
      assert Shares(s.mem, d, w.first + i, Target(s.mem[w.cache][i]));
    }
  }

  lemma NextUntouched(s0: Snap, s: Snap, s': Snap, w: Window, d: nat, k: nat)
    requires Inv(s0) && s.dirs == s0.dirs && Next(s, s', w, d, k) && Inv(s')
    requires Entries(s0, s, w, d, k)
    ensures forall i :: 0 <= i < 1024 && !(w.first <= i < w.first + k / 1024 + 1) ==> s'.mem[d][i] == s0.mem[d][i]
    ensures forall i :: k / 1024 + 1 <= i < 1024 ==> s'.mem[w.cache][i] == s0.mem[w.cache][i]
    ensures s'.mem[Other(s', w)] == s0.mem[Other(s', w)]
  {
    TablesStep(k);
  }

  lemma NextBalance(s0: Snap, s: Snap, s': Snap, w: Window, d: nat, k: nat)
    requires |s0.mem| == NF && Next(s, s', w, d, k)
    requires Balance(s0, s, w, k) && AtTable(s0, s, w, d, k)
    ensures Balance(s0, s', w, k + 1)
  {
    TablesStep(k);
    NextTakes(s0, s, s', w, d, k);
    assert Missing(s0.mem[w.cache], k / 1024 + 1) ==
      Missing(s0.mem[w.cache], k / 1024) + (if Present(s0.mem[w.cache][k / 1024]) then 0 else 1);
  }

  lemma NextTakes(s0: Snap, s: Snap, s': Snap, w: Window, d: nat, k: nat)
    requires |s0.mem| == NF && Next(s, s', w, d, k) && AtTable(s0, s, w, d, k)
    ensures |s'.free| == |s.free| - (if k % 1024 == 0 && !Present(s0.mem[w.cache][k / 1024]) then 1 else 0)
  {
    TakesOne(s.free, s'.free, TableFor(s, d, w.first + k / 1024, CacheAt(w, k)));
  }

  lemma TakesOne(a: set<nat>, b: set<nat>, t: nat)
    requires b == a - {t}
    ensures |b| == |a| - (if t in a then 1 else 0)
  {
    if t in a {
      assert a == b + {t};
    } else {
      assert a == b;
    }
  }

  /** One more page. */
  lemma NextProgress(s0: Snap, s: Snap, s': Snap, w: Window, d: nat, k: nat)
    requires Holds(Progress(s0, s, w, d, k)) && Holds(Next(s, s', w, d, k))
    ensures Holds(Progress(s0, s', w, d, k + 1))
  {
    ProgressAtTable(s0, s, w, d, k);
    NextFrames(s0, s, s', w, d, k);
    NextWalks(s0, s, s', w, d, k);
    NextEntries(s0, s, s', w, d, k);
    NextBalance(s0, s, s', w, d, k);
  }

  /** The walk stops short exactly for want of table frames. */
  lemma StuckMeansTooFew(s0: Snap, s: Snap, w: Window, d: nat, k: nat)
    requires Holds(Progress(s0, s, w, d, k)) && k < w.count * 1024 && !Ready(s, w, d, k)
    ensures |s0.free| < Missing(s0.mem[w.cache], w.count)
  {
    MissingMonotone(s0.mem[w.cache], k / 1024 + 1, w.count);
  }

  /** There are frames for all missing tables of the window, or it does not matter. */
  ghost predicate Supplied(s: Snap, w: Window, unsure: bool) {
    unsure || (w.cache < |s.mem| && w.count <= 64 && |s.free| >= Missing(s.mem[w.cache], w.count))
  }

  lemma NotStuck(s0: Snap, s: Snap, w: Window, d: nat, k: nat)
    requires Holds(Progress(s0, s, w, d, k)) && k < w.count * 1024
    requires |s0.free| >= Missing(s0.mem[w.cache], w.count)
    ensures Ready(s, w, d, k)
  {
    if !Ready(s, w, d, k) {
      StuckMeansTooFew(s0, s, w, d, k);
    }
  }

  /** The arguments of vm_map_page for page k of the window. */
  ghost predicate PageArgs(s: Snap, w: Window, pte: Word, va: Word, k: nat) {
    && Inv(s) && IsWindow(s, w) && k < w.count * 1024
    && IsCache(s, w.cache, va)
    && CacheFor(s, w.cache, va) == CacheAt(w, k)
    && Page(va) == w.first * 1024 + k
    && pte == w.Pte(Page(va))
  }

  /** With frames for all missing tables every page of the window can be mapped. */
  lemma PageCanBeMapped(s0: Snap, s: Snap, w: Window, d: nat, k: nat, pte: Word, va: Word, unsure: bool)
    requires Sealed(Progress(s0, s, w, d, k)) && Holds(PageArgs(s, w, pte, va, k))
    requires Holds(Supplied(s0, w, unsure))
    ensures Inv(s) && d in s.dirs && IsCache(s, w.cache, va)
    ensures unsure || Mappable(s, d, Page(va), PTE_W, CacheFor(s, w.cache, va))
  {
    Unseal(Progress(s0, s, w, d, k));
    if !unsure {
      NotStuck(s0, s, w, d, k);
    }
  }

  /** One pass of the loops of vm_map_kernel and vm_map_io. */
  lemma WindowPage(s0: Snap, s: Snap, s': Snap, w: Window, d: nat, k: nat, pte: Word, va: Word, rc: int)
    requires Sealed(Progress(s0, s, w, d, k)) && Holds(PageArgs(s, w, pte, va, k))
    requires Holds(MapPageResult(s, s', d, va, pte, PTE_W, w.cache, rc))
    ensures rc == 0 ==> Sealed(Progress(s0, s', w, d, k + 1))
    ensures rc != 0 ==> Sealed(Filled(s0, s', w, d, false))
  {
    Unseal(Progress(s0, s, w, d, k));
    if rc == 0 {
      NextProgress(s0, s, s', w, d, k);
    } else {
      StuckMeansTooFew(s0, s, w, d, k);
    }
  }

  /** The outcome of a whole window walk. */
  ghost predicate Filled(s0: Snap, s: Snap, w: Window, d: nat, ok: bool) {
    && CanFill(s0, w, d) && IsWindow(s, w) && Frames(s0, s, d) && OthersKept(s0, s, d)
    && (ok ==> Progress(s0, s, w, d, w.count * 1024))
    && (ok <==> |s0.free| >= Missing(s0.mem[w.cache], w.count))
  }

  lemma FullCount(s0: Snap, s: Snap, w: Window, d: nat)
    requires Holds(Progress(s0, s, w, d, w.count * 1024))
    ensures Holds(Filled(s0, s, w, d, true))
  {
    assert Tables(w.count * 1024) == w.count;
  }

  lemma WindowBegins(s: Snap, w: Window, d: nat)
    requires Sealed(CanFill(s, w, d))
    ensures Sealed(Progress(s, s, w, d, 0))
  {
    Unseal(CanFill(s, w, d));
    assert Progress(s, s, w, d, 0);
  }

  lemma WindowKept(s0: Snap, s: Snap, w: Window, d: nat, k: nat)
    requires Sealed(Progress(s0, s, w, d, k))
    ensures Inv(s) && s.kc == s0.kc && s.ioc == s0.ioc
  {
    Unseal(Progress(s0, s, w, d, k));
  }

  lemma WindowEnds(s0: Snap, s: Snap, w: Window, d: nat, k: nat)
    requires Sealed(Progress(s0, s, w, d, k)) && k == w.count * 1024
    ensures Sealed(Filled(s0, s, w, d, true))
  {
    Unseal(Progress(s0, s, w, d, k));
    FullCount(s0, s, w, d);
  }
}
