/** What vm_new_pdir promises, call by call and over any number of calls. */
module Directories {
  import opened Wrappers
  import opened Words
  import opened Pm
  import opened Paging
  import opened Mapping
  import opened Windows

  /** The translations a new directory has, whatever the caches hold: the first
      256 MiB at KHALF, the I/O range onto itself, nothing else. */
  function BootWalk(p: nat): Option<Word> {
    if 0xC_0000 <= p < 0xD_0000 then Some((p - 0xC_0000) * 4096 + 3)
    else if 0xF_E000 <= p < NPAGES then Some(p * 4096 + 3)
    else None
  }

  /** The frames the next vm_new_pdir takes. */
  ghost function Need(s: Snap): nat
    requires |s.mem| == NF && s.kc < NF && s.ioc < NF
  {
    1 + Missing(s.mem[s.kc], 64) + Missing(s.mem[s.ioc], 8)
  }

  /** Every directory of s is one of s' and translates every page as before. */
  ghost predicate TranslationsKept(s: Snap, s': Snap) {
    && Inv(s) && Inv(s') && s.dirs <= s'.dirs
    && forall x, p :: x in s.dirs && 0 <= p < NPAGES ==> Walk(s'.mem, x, p) == Walk(s.mem, x, p)
  }

  ghost predicate DataKept(s: Snap, s': Snap) {
    forall f: nat :: IsData(s, f) ==> IsData(s', f) && f < |s.mem| && f < |s'.mem| && s'.mem[f] == s.mem[f]
  }

  /** A call of vm_new_pdir from s to s'. */
  ghost predicate Built(s: Snap, s': Snap, r: Option<nat>) {
    && Valid(s) && Valid(s')
    && TranslationsKept(s, s') && DataKept(s, s')
    && s'.kc == s.kc && s'.ioc == s.ioc && s'.free <= s.free
    && (r == None <==> |s.free| < Need(s))
    && (r == None ==> s'.dirs == s.dirs)
    && (r.Some? ==> BuiltDirectory(s, s', r.value))
  }

  ghost predicate BuiltDirectory(s: Snap, s': Snap, d: nat)
    requires Valid(s) && Valid(s')
  {
    && d in s.free && s'.dirs == s.dirs + {d}
    && (forall p :: 0 <= p < NPAGES ==> Walk(s'.mem, d, p) == BootWalk(p))
    && (forall i :: 0 <= i < 1024 ==> (Present(s'.mem[d][i]) <==> 768 <= i < 832 || 1016 <= i))
    && |s'.free| + Need(s) == |s.free|
    && Need(s') == 1
    && SharesCaches(s', d)
  }

  /** The directory's kernel and I/O tables are the cached ones. */
  ghost predicate SharesCaches(s: Snap, d: nat)
    requires Inv(s) && d in s.dirs
  {
    && (forall i :: 0 <= i < 64 ==> Present(s.mem[s.kc][i]) && Shares(s.mem, d, 768 + i, Target(s.mem[s.kc][i])))
    && (forall i :: 0 <= i < 8 ==> Present(s.mem[s.ioc][i]) && Shares(s.mem, d, 1016 + i, Target(s.mem[s.ioc][i])))
  }

  /** A zeroed free frame becomes a directory that maps nothing. */
  lemma AddDirectory(s: Snap, s': Snap, d: nat)
    requires Holds(Added(s, s', d))
    ensures Holds(CanFill(s', KernelWindow(s'), d))
    ensures forall x :: x in s.dirs ==> Complete(s', IoWindow(s'), x)
    ensures forall p :: 0 <= p < NPAGES ==> Walk(s'.mem, d, p) == None
    ensures forall x, p :: x in s.dirs && 0 <= p < NPAGES ==> Walk(s'.mem, x, p) == Walk(s.mem, x, p)
  {
    AddDirectoryInv(s, s', d);
    AddDirectoryRights(s, s', d);
    forall x, p | x in s.dirs && 0 <= p < NPAGES ensures Walk(s'.mem, x, p) == Walk(s.mem, x, p) {
      assert EntryOk(s, s.mem[x][p / 1024], p / 1024);
    }
    forall x | x in s.dirs ensures Complete(s', KernelWindow(s'), x) && Complete(s', IoWindow(s'), x) {
      assert Complete(s, KernelWindow(s), x) && Complete(s, IoWindow(s), x);
    }
  }

  lemma AddDirectoryRights(s: Snap, s': Snap, d: nat)
    requires Valid(s) && d in s.free && Roles(s')
    requires s' == s.(mem := s.mem[d := ZeroFrame()], free := s.free - {d}, dirs := s.dirs + {d})
    ensures RightsOk(s')
  {
    forall x, i | x in s'.dirs && 0 <= i < 1024 ensures DirRights(s', x, i) {
      if x != d { assert DirRights(s, x, i); }
    }
  }

  lemma AddDirectoryInv(s: Snap, s': Snap, d: nat)
    requires Inv(s) && d in s.free
    requires s' == s.(mem := s.mem[d := ZeroFrame()], free := s.free - {d}, dirs := s.dirs + {d})
    ensures Inv(s')
  {
    forall x, i | x in s'.dirs && 0 <= i < 1024 ensures EntryOk(s', s'.mem[x][i], i) {
      if x != d { assert EntryOk(s, s.mem[x][i], i); }
    }
    forall i | 0 <= i < 64 ensures EntryOk(s', s'.mem[s.kc][i], 768 + i) {
      assert EntryOk(s, s.mem[s.kc][i], 768 + i);
    }
    forall i | 0 <= i < 8 ensures EntryOk(s', s'.mem[s.ioc][i], 1016 + i) {
      assert EntryOk(s, s.mem[s.ioc][i], 1016 + i);
    }
  }

  /** After the kernel window the I/O window can be walked. */
  lemma KernelThenIo(s1: Snap, s2: Snap, d: nat)
    requires Holds(Progress(s1, s2, KernelWindow(s1), d, 0x1_0000))
    requires forall x :: x in s1.dirs && x != d ==> Complete(s1, IoWindow(s1), x)
    requires forall i :: 1016 <= i < 1024 ==> !Present(s1.mem[d][i])
    ensures Holds(CanFill(s2, IoWindow(s2), d))
  {
    forall x | x in s2.dirs && x != d ensures Complete(s2, IoWindow(s2), x) {
      assert Complete(s1, IoWindow(s1), x);
    }
  }

  /** Frames for a whole directory are frames for each of its windows. */
  lemma ReadyForKernel(s: Snap, s1: Snap, d: nat, unsure: bool)
    requires Holds(Added(s, s1, d)) && (unsure || |s.free| >= Need(s))
    ensures Sealed(CanFill(s1, KernelWindow(s1), d)) && Holds(Supplied(s1, KernelWindow(s1), unsure))
  {
    AddDirectory(s, s1, d);
    assert |s1.free| == |s.free| - 1;
  }

  lemma ReadyForIo(s: Snap, s1: Snap, s2: Snap, d: nat, unsure: bool)
    requires Holds(Added(s, s1, d)) && Sealed(Progress(s1, s2, KernelWindow(s1), d, 0x1_0000))
    requires unsure || |s.free| >= Need(s)
    ensures Sealed(CanFill(s2, IoWindow(s2), d)) && Holds(Supplied(s2, IoWindow(s2), unsure))
  {
    Unseal(Progress(s1, s2, KernelWindow(s1), d, 0x1_0000));
    AddDirectory(s, s1, d);
    KernelThenIo(s1, s2, d);
    assert Tables(0x1_0000) == 64;
    assert |s1.free| == |s.free| - 1;
    assert s2.mem[s2.ioc] == s1.mem[s1.ioc] == s.mem[s.ioc];
  }

  /** The state in which a failing vm_new_pdir forgets its directory. */
  lemma DropDirectory(s: Snap, s1: Snap, s2: Snap, s': Snap, d: nat)
    requires Added(s, s1, d) && Inv(s1)
    requires Frames(s1, s2, d) && OthersKept(s1, s2, d)
    requires s' == s2.(dirs := s2.dirs - {d})
    ensures Valid(s') && TranslationsKept(s, s') && DataKept(s, s') && s'.free <= s.free
  {
    assert s'.dirs == s.dirs;
    forall x, i | x in s'.dirs && 0 <= i < 1024 ensures EntryOk(s', s'.mem[x][i], i) {
      assert EntryOk(s2, s2.mem[x][i], i);
    }
    forall i | 0 <= i < 64 ensures EntryOk(s', s'.mem[s.kc][i], 768 + i) {
      assert EntryOk(s2, s2.mem[s.kc][i], 768 + i);
    }
    forall i | 0 <= i < 8 ensures EntryOk(s', s'.mem[s.ioc][i], 1016 + i) {
      assert EntryOk(s2, s2.mem[s.ioc][i], 1016 + i);
    }
    forall x, i | x in s'.dirs && 0 <= i < 1024 ensures DirRights(s', x, i) {
      assert DirRights(s2, x, i);
    }
    KeptFrom(s, s1, s2, d);
    KeptValid(s, s');
  }

  /** s1 is s with free frame d made a directory that maps nothing. */
  ghost predicate Added(s: Snap, s1: Snap, d: nat) {
    && Valid(s) && d in s.free
    && s1 == s.(mem := s.mem[d := ZeroFrame()], free := s.free - {d}, dirs := s.dirs + {d})
  }

  lemma KeptFrom(s: Snap, s1: Snap, s2: Snap, d: nat)
    requires Added(s, s1, d) && Inv(s1) && Frames(s1, s2, d) && OthersKept(s1, s2, d)
    ensures TranslationsKept(s, s2) && DataKept(s, s2) && s2.free <= s.free
  {
    AddDirectory(s, s1, d);
    forall x, p | x in s.dirs && 0 <= p < NPAGES ensures Walk(s2.mem, x, p) == Walk(s.mem, x, p) {
      assert x in s2.dirs && x != d;
      assert Walk(s2.mem, x, p) == Walk(s1.mem, x, p);
    }
    forall f: nat | IsData(s, f) ensures IsData(s2, f) && s2.mem[f] == s.mem[f] {
      assert IsData(s1, f);
    }
  }

  /** Directories that translate as before are as complete as before. */
  lemma KeptValid(s: Snap, s': Snap)
    requires Valid(s) && TranslationsKept(s, s') && s'.dirs == s.dirs && RightsOk(s')
    ensures Valid(s')
  {
    forall x | x in s'.dirs ensures Complete(s', KernelWindow(s'), x) && Complete(s', IoWindow(s'), x) {
      assert Complete(s, KernelWindow(s), x) && Complete(s, IoWindow(s), x);
    }
  }

  /** Both windows filled: the new directory's translations. */
  lemma FilledWalks(s: Snap, s1: Snap, s2: Snap, s3: Snap, d: nat, p: nat)
    requires Added(s, s1, d) && p < NPAGES
    requires Holds(Progress(s1, s2, KernelWindow(s1), d, 0x1_0000))
    requires Holds(Progress(s2, s3, IoWindow(s2), d, 0x2000))
    ensures Walk(s3.mem, d, p) == BootWalk(p)
  {
    AddDirectory(s, s1, d);
    if p / 1024 < 1016 {
      WalksBelowIo(s1, s2, s3, d, p);
    }
  }

  /** The second map leaves the pages below its window as the first has made them. */
  lemma WalksBelowIo(s1: Snap, s2: Snap, s3: Snap, d: nat, p: nat)
    requires Holds(Progress(s1, s2, KernelWindow(s1), d, 0x1_0000)) && p < 1016 * 1024
    requires Holds(Progress(s2, s3, IoWindow(s2), d, 0x2000))
    ensures |s3.mem| == NF && |s1.mem| == NF && d < NF
    ensures 0xC_0000 <= p < 0xD_0000 ==> Walk(s3.mem, d, p) == Some((p - 0xC_0000) * 4096 + 3)
    ensures !(0xC_0000 <= p < 0xD_0000) ==> Walk(s3.mem, d, p) == Walk(s1.mem, d, p)
  {
    assert Tables(0x1_0000) == 64 && Tables(0x2000) == 8;
    assert Walk(s3.mem, d, p) == Walk(s2.mem, d, p);
  }

  lemma FilledShares(s1: Snap, s2: Snap, s3: Snap, d: nat)
    requires Holds(Progress(s1, s2, KernelWindow(s1), d, 0x1_0000))
    requires Holds(Progress(s2, s3, IoWindow(s2), d, 0x2000))
    ensures SharesCaches(s3, d) && Need(s3) == 1
  {
    assert Tables(0x1_0000) == 64 && Tables(0x2000) == 8;
    forall i | 0 <= i < 64
      ensures Present(s3.mem[s3.kc][i]) && Shares(s3.mem, d, 768 + i, Target(s3.mem[s3.kc][i]))
    {
      assert Shares(s2.mem, d, 768 + i, Target(s2.mem[s2.kc][i]));
      assert s3.mem[d][768 + i] == s2.mem[d][768 + i];
    }
    forall i | 0 <= i < 8
      ensures Present(s3.mem[s3.ioc][i]) && Shares(s3.mem, d, 1016 + i, Target(s3.mem[s3.ioc][i]))
    {
    }
    MissingNone(s3.mem[s3.kc], 64);
    MissingNone(s3.mem[s3.ioc], 8);
  }

  lemma FilledEntries(s: Snap, s1: Snap, s2: Snap, s3: Snap, d: nat)
    requires Holds(Added(s, s1, d))
    requires Holds(Progress(s1, s2, KernelWindow(s1), d, 0x1_0000))
    requires Holds(Progress(s2, s3, IoWindow(s2), d, 0x2000))
    ensures forall i :: 0 <= i < 1024 ==> (Present(s3.mem[d][i]) <==> 768 <= i < 832 || 1016 <= i)
  {
    FilledShares(s1, s2, s3, d);
    forall i | 0 <= i < 1024 ensures Present(s3.mem[d][i]) <==> 768 <= i < 832 || 1016 <= i {
      if 768 <= i < 832 {
        assert Shares(s3.mem, d, 768 + (i - 768), Target(s3.mem[s3.kc][i - 768]));
      } else if 1016 <= i {
        assert Shares(s3.mem, d, 1016 + (i - 1016), Target(s3.mem[s3.ioc][i - 1016]));
      }
    }
  }

  lemma FilledCount(s: Snap, s1: Snap, s2: Snap, s3: Snap, d: nat)
    requires Holds(Added(s, s1, d))
    requires Holds(Progress(s1, s2, KernelWindow(s1), d, 0x1_0000))
    requires Holds(Progress(s2, s3, IoWindow(s2), d, 0x2000))
    ensures |s3.free| + Need(s) == |s.free|
  {
    assert Tables(0x1_0000) == 64 && Tables(0x2000) == 8;
    assert |s1.free| == |s.free| - 1;
    assert s2.mem[s2.ioc] == s1.mem[s1.ioc] == s.mem[s.ioc];
  }

  /** Success of both loops is success of vm_new_pdir. */
  lemma Finish(s: Snap, s1: Snap, s2: Snap, s3: Snap, d: nat)
    requires Holds(Added(s, s1, d))
    requires Holds(Progress(s1, s2, KernelWindow(s1), d, 0x1_0000))
    requires Holds(Progress(s2, s3, IoWindow(s2), d, 0x2000))
    ensures Holds(Built(s, s3, Some(d)))
  {
    FilledShares(s1, s2, s3, d);
    FilledCount(s, s1, s2, s3, d);
    FilledEntries(s, s1, s2, s3, d);
    forall p | 0 <= p < NPAGES ensures Walk(s3.mem, d, p) == BootWalk(p) {
      FilledWalks(s, s1, s2, s3, d, p);
    }
    FramesChain(s1, s2, s3, d);
    KeptFrom(s, s1, s3, d);
    FinishValid(s, s3, d);
  }

  lemma FramesChain(s1: Snap, s2: Snap, s3: Snap, d: nat)
    requires Inv(s1) && Frames(s1, s2, d) && OthersKept(s1, s2, d)
    requires Frames(s2, s3, d) && OthersKept(s2, s3, d)
    ensures Frames(s1, s3, d) && OthersKept(s1, s3, d)
  {
    forall x, p | x in s3.dirs && x != d && 0 <= p < NPAGES
      ensures Walk(s3.mem, x, p) == Walk(s1.mem, x, p)
    {
      assert Walk(s2.mem, x, p) == Walk(s1.mem, x, p);
    }
  }

  lemma FinishValid(s: Snap, s': Snap, d: nat)
    requires Valid(s) && TranslationsKept(s, s') && s'.dirs == s.dirs + {d} && RightsOk(s')
    requires forall p :: 0 <= p < NPAGES ==> Walk(s'.mem, d, p) == BootWalk(p)
    ensures Valid(s')
  {
    forall x | x in s'.dirs ensures Complete(s', KernelWindow(s'), x) && Complete(s', IoWindow(s'), x) {
      if x != d {
        assert Complete(s, KernelWindow(s), x) && Complete(s, IoWindow(s), x);
      }
    }
  }

  lemma OutOfFrames(s: Snap)
    requires Valid(s) && s.free == {}
    ensures Built(s, s, None)
  {
  }

  lemma KernelFailed(s: Snap, s1: Snap, s2: Snap, s': Snap, d: nat)
    requires Holds(Added(s, s1, d)) && Sealed(Filled(s1, s2, KernelWindow(s1), d, false))
    requires s' == s2.(dirs := s2.dirs - {d})
    ensures Holds(Built(s, s', None))
  {
    Unseal(Filled(s1, s2, KernelWindow(s1), d, false));
    DropDirectory(s, s1, s2, s', d);
    assert |s1.free| == |s.free| - 1;
    assert s'.dirs == s.dirs;
  }

  lemma IoFailed(s: Snap, s1: Snap, s2: Snap, s3: Snap, s': Snap, d: nat)
    requires Holds(Added(s, s1, d)) && Holds(Progress(s1, s2, KernelWindow(s1), d, 0x1_0000))
    requires Holds(Filled(s2, s3, IoWindow(s2), d, false))
    requires s' == s3.(dirs := s3.dirs - {d})
    ensures Holds(Built(s, s', None))
  {
    FramesChain(s1, s2, s3, d);
    DropDirectory(s, s1, s3, s', d);
    assert Tables(0x1_0000) == 64;
    assert |s1.free| == |s.free| - 1;
    assert s2.mem[s2.ioc] == s1.mem[s1.ioc] == s.mem[s.ioc];
    assert s'.dirs == s.dirs;
  }

  /** Either end of the second map. */
  lemma IoEnds(s: Snap, s1: Snap, s2: Snap, s3: Snap, s': Snap, d: nat, ok: bool)
    requires Holds(Added(s, s1, d)) && Sealed(Progress(s1, s2, KernelWindow(s1), d, 0x1_0000))
    requires Sealed(Filled(s2, s3, IoWindow(s2), d, ok))
    requires s' == if ok then s3 else s3.(dirs := s3.dirs - {d})
    ensures Holds(Built(s, s', if ok then Some(d) else None))
  {
    Unseal(Progress(s1, s2, KernelWindow(s1), d, 0x1_0000));
    Unseal(Filled(s2, s3, IoWindow(s2), d, ok));
    if ok {
      Finish(s, s1, s2, s3, d);
    } else {
      IoFailed(s, s1, s2, s3, s', d);
    }
  }

  // ----------------------------------------------------------------- whole runs

  /** A run of vm_new_pdir calls: states and answers. */
  ghost predicate Run(states: seq<Snap>, answers: seq<Option<nat>>) {
    && |states| == |answers| + 1 && Valid(states[0])
    && forall i :: 0 <= i < |answers| ==> Built(states[i], states[i + 1], answers[i])
  }

  /** After any number of calls every directory built still translates exactly
      BootWalk, no call having changed a translation of an earlier one. */
  lemma {:induction false} EveryDirectoryBoots(states: seq<Snap>, answers: seq<Option<nat>>, i: nat, p: nat)
    requires Run(states, answers) && i < |answers| && answers[i].Some? && p < NPAGES
    ensures Inv(states[|answers|]) && answers[i].value in states[|answers|].dirs
    ensures Walk(states[|answers|].mem, answers[i].value, p) == BootWalk(p)
  {
    var n := |answers| - 1;
    assert Built(states[n], states[n + 1], answers[n]);
    if i < n {
      assert Run(states[..n + 1], answers[..n]);
      EveryDirectoryBoots(states[..n + 1], answers[..n], i, p);
    }
  }

  /** The frames taken over a run: the tables only once, then one a call. */
  lemma {:induction false} RunCost(states: seq<Snap>, answers: seq<Option<nat>>)
    requires Run(states, answers) && |answers| > 0
    requires forall i :: 0 <= i < |answers| ==> answers[i].Some?
    ensures Inv(states[|answers|])
    ensures |states[|answers|].free| + Need(states[0]) + (|answers| - 1) == |states[0].free|
    ensures Need(states[|answers|]) == 1
  {
    var n := |answers| - 1;
    assert Built(states[n], states[n + 1], answers[n]);
    if n > 0 {
      assert Run(states[..n + 1], answers[..n]);
      RunCost(states[..n + 1], answers[..n]);
    }
  }

  /** The state vm_init reaches before it builds the kernel's directory. */
  lemma BootNeed(s: Snap)
    requires Roles(s) && s.dirs == {} && s.slot == map[]
    requires forall i :: 0 <= i < 64 ==> !Present(s.mem[s.kc][i])
    requires forall i :: 0 <= i < 8 ==> !Present(s.mem[s.ioc][i])
    requires s.mem[s.kc][CACHE_BASE] == KHALF && s.mem[s.kc][CACHE_LIMIT] == KHALF + KHEAP
    requires s.mem[s.ioc][CACHE_BASE] == IO_START && s.mem[s.ioc][CACHE_LIMIT] == IO_END
    ensures Holds(Valid(s)) && Need(s) == 73
  {
    MissingAll(s.mem[s.kc], 64);
    MissingAll(s.mem[s.ioc], 8);
  }

  /** The caches have been taken from n free frames, and nothing else. */
  ghost predicate NoDirectory(s: Snap, n: nat) {
    Valid(s) && Need(s) == 73 && s.dirs == {} && |s.free| == n - 2
  }

  /** The two least free frames have become the caches; m is memory before. */
  lemma CachesPlaced(m: seq<Frame>, free: set<nat>, s: Snap)
    requires |m| == NF && |free| >= 2 && forall f :: f in free ==> 0 < f < NF
    requires free - {Least(free)} != {} && s.kc == Least(free) && s.ioc == Least(free - {s.kc})
    requires s.mem == m[s.kc := m[s.kc][CACHE_BASE := KHALF][CACHE_LIMIT := KHALF + KHEAP]]
                       [s.ioc := m[s.ioc][CACHE_BASE := IO_START][CACHE_LIMIT := IO_END]]
    requires s.free == free - {s.kc} - {s.ioc} && s.dirs == {} && s.slot == map[]
    requires forall i :: 0 <= i < 64 ==> !Present(m[s.kc][i])
    requires forall i :: 0 <= i < 8 ==> !Present(m[s.ioc][i])
    ensures Holds(NoDirectory(s, |free|))
  {
    BootNeed(s);
    TakesOne(free, free - {s.kc}, s.kc);
    TakesOne(free - {s.kc}, s.free, s.ioc);
  }

  /** The kernel's own directory */
  lemma FirstBuilt(n: nat, s: Snap, s': Snap, r: Option<nat>)
    requires Holds(Built(s, s', r)) && Holds(NoDirectory(s, n))
    ensures Holds(Valid(s')) && (r.Some? <==> n >= 75)
    ensures r.Some? ==> r.value < |s'.mem| && s'.dirs == {r.value} && |s'.free| == n - 75
    ensures r.Some? ==> forall p :: 0 <= p < NPAGES ==> Walk(s'.mem, r.value, p) == BootWalk(p)
  {
  }

  // ----------------------------------------------------- with and without caches

  /** The first k pages of window w are mapped in directory d one after the
      other without a cache; the states on the way. */
  ghost predicate Uncached(states: seq<Snap>, w: Window, d: nat, k: nat) {
    && |states| == k + 1 && k <= w.count * 1024 && w.first + w.count <= 1024 && w.delta <= w.first * 1024
    && Inv(states[0]) && d in states[0].dirs
    && forall i :: 0 <= i < k ==> UncachedPage(states[i], states[i + 1], w, d, i)
  }

  ghost predicate UncachedPage(s: Snap, s': Snap, w: Window, d: nat, i: nat)
    requires w.delta <= w.first * 1024
  {
    var p := w.first * 1024 + i;
    w.Pte(p) < 0x1_0000_0000 && Mapped(s, s', d, p, w.Pte(p), PTE_W, NoCache)
  }

  lemma {:induction false} UncachedWalks(states: seq<Snap>, w: Window, d: nat, k: nat, q: nat)
    requires Uncached(states, w, d, k) && q < NPAGES
    ensures Inv(states[k]) && d in states[k].dirs
    ensures Walk(states[k].mem, d, q) ==
      if w.first * 1024 <= q < w.first * 1024 + k then Some(w.Pte(q)) else Walk(states[0].mem, d, q)
  {
    if k > 0 {
      UncachedWalks(states[..k], w, d, k - 1, q);
      assert UncachedPage(states[k - 1], states[k], w, d, k - 1);
      var p := w.first * 1024 + k - 1;
      OddPte(w, p);
      UncachedPageWalks(states[k - 1], states[k], d, p, w.Pte(p), q);
    }
  }

  lemma OddPte(w: Window, p: nat)
    requires w.delta <= p
    ensures w.Pte(p) % 2 == 1
  {
  }

  lemma UncachedPageWalks(s: Snap, s': Snap, d: nat, p: nat, pte: Word, q: nat)
    requires Mapped(s, s', d, p, pte, PTE_W, NoCache) && Present(pte) && q < NPAGES
    ensures Inv(s') && d in s'.dirs && d < NF && |s.mem| == NF
    ensures Walk(s'.mem, d, q) == if q == p then Some(pte) else Walk(s.mem, d, q)
  {
    MapKeepsInv(s, s', d, p, pte, PTE_W, NoCache);
    MapWalks(s, s', d, p, pte, PTE_W, NoCache, q);
  }

  /** vm_new_pdir with null for both caches: an empty directory, then all pages
      of both windows. */
  ghost predicate BuiltUncached(s1: Snap, kernel: seq<Snap>, io: seq<Snap>, d: nat) {
    && Inv(s1) && d in s1.dirs && (forall p :: 0 <= p < NPAGES ==> Walk(s1.mem, d, p) == None)
    && Uncached(kernel, KernelWindow(s1), d, 0x1_0000) && kernel[0] == s1
    && Uncached(io, IoWindow(s1), d, 0x2000) && io[0] == kernel[0x1_0000]
  }

  /** The shared tables give each directory the translations it would have got
      from tables of its own. */
  lemma CachedAsUncached(s: Snap, s': Snap, d: nat, s1: Snap, kernel: seq<Snap>, io: seq<Snap>, e: nat, p: nat)
    requires Built(s, s', Some(d)) && BuiltUncached(s1, kernel, io, e) && p < NPAGES
    ensures Inv(io[0x2000]) && e in io[0x2000].dirs
    ensures Walk(s'.mem, d, p) == Walk(io[0x2000].mem, e, p) == BootWalk(p)
  {
    UncachedWalks(kernel, KernelWindow(s1), e, 0x1_0000, p);
    UncachedWalks(io, IoWindow(s1), e, 0x2000, p);
  }

  /** "All other pages walk as before" fails for the very first vm_map_page of
      every directory but the first: the cached table brings its pages along. */
  lemma AttachingBringsPages(s: Snap, s1: Snap, s2: Snap, d: nat, older: nat)
    requires Added(s, s1, d) && older in s.dirs && SharesCaches(s, older)
    requires Mapped(s1, s2, d, 0xC_0000, 3, PTE_W, Cached(s1.kc, 0))
    ensures Walk(s1.mem, d, 0xC_0001) == None && Walk(s2.mem, d, 0xC_0001) == Some(0x1003)
  {
    AddDirectory(s, s1, d);
    assert Shares(s.mem, older, 768 + 0, Target(s.mem[s.kc][0]));
    assert Complete(s, KernelWindow(s), older) && KernelWindow(s).Has(0xC_0001);
    assert Walk(s1.mem, older, 0xC_0001) == Walk(s.mem, older, 0xC_0001);
    MapWalks(s1, s2, d, 0xC_0000, 3, PTE_W, Cached(s1.kc, 0), 0xC_0001);
  }
}
