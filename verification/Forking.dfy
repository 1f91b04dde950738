/** What task_copy_vm and task_fork do to address spaces. */
module Forking {
  import opened Wrappers
  import opened Words
  import opened Paging
  import opened Mapping
  import opened Directories
  import opened UserMaps

  /** The first page task_copy_vm looks at: the one of 0x08048080. */
  const RUN: nat := 0x8048
  const RUN_INDEX: nat := 32
  const RUN_SLOT: nat := 72

  /** The pages from there to the end of that directory entry */
  const ROOM: nat := 1024 - RUN_SLOT

  /** Directory p maps a run of n pages from RUN to data frames, below KHALF, and
      the page after it is unmapped. */
  ghost predicate IsRun(s: Snap, p: nat, n: nat) {
    && |s.mem| == NF && p < NF && RUN + n < 768 * 1024
    && (forall k :: 0 <= k < n ==> RunPage(s, p, k))
    && Walk(s.mem, p, RUN + n) == None
  }

  ghost predicate RunPage(s: Snap, p: nat, k: nat)
    requires |s.mem| == NF && p < NF && RUN + k < NPAGES
  {
    Walk(s.mem, p, RUN + k).Some? && IsData(s, Target(Walk(s.mem, p, RUN + k).value))
  }

  /** The entry that maps page k of the run. */
  ghost function RunEntry(s: Snap, p: nat, n: nat, k: nat): (e: Word)
    requires IsRun(s, p, n) && k < n
    ensures IsData(s, Target(e)) && Walk(s.mem, p, RUN + k) == Some(e)
  {
    assert RunPage(s, p, k);
    Walk(s.mem, p, RUN + k).value
  }

  lemma RunEntryIs(s: Snap, p: nat, n: nat, k: nat)
    requires Inv(s) && p in s.dirs && IsRun(s, p, n) && k < n <= ROOM
    ensures Present(s.mem[p][RUN_INDEX]) && Target(s.mem[p][RUN_INDEX]) in s.slot
    ensures s.mem[p][RUN_INDEX] % 4096 < 128
    ensures s.mem[Target(s.mem[p][RUN_INDEX])][RUN_SLOT + k] == RunEntry(s, p, n, k)
    ensures Present(RunEntry(s, p, n, k)) && IsData(s, Target(RunEntry(s, p, n, k)))
  {
    assert RunPage(s, p, k);
    assert EntryOk(s, s.mem[p][RUN_INDEX], RUN_INDEX);
  }

  /** KH2P(copy) | (entry & 0xFFF) */
  function Retarget(frame: nat, entry: Word): (e: Word)
    requires frame < NF
    ensures Target(e) == frame && e % 4096 == entry % 4096 && (Present(e) <==> Present(entry))
  {
    var flags: nat := entry % 4096;
    Split(frame, flags);
    LowBit(entry);
    frame * 4096 + flags
  }

  /** The copied entry allows what the old one did. */
  lemma RetargetRights(frame: nat, entry: Word)
    requires frame < NF
    ensures Writable(Retarget(frame, entry)) <==> Writable(entry)
    ensures UserMode(Retarget(frame, entry)) <==> UserMode(entry)
  {
    LowRights(entry);
    LowRights(Retarget(frame, entry));
  }

  lemma LowRights(e: Word)
    ensures Writable(e) <==> e % 4096 / 2 % 2 == 1
    ensures UserMode(e) <==> e % 4096 / 2 / 2 % 2 == 1
  {
    LowBits(e, e / 4096, e % 4096);
  }

  lemma LowBits(e: nat, q: nat, r: nat)
    requires e == q * 4096 + r
    ensures Bit(e, 1) <==> r / 2 % 2 == 1
    ensures Bit(e, 2) <==> r / 2 / 2 % 2 == 1
  {
    Halved(q * 2048, r);
    Halved(q * 1024, r / 2);
    Halved(q * 512, r / 2 / 2);
    BitIs(e);
  }

  lemma Halved(q: nat, r: nat)
    ensures (2 * q + r) / 2 == q + r / 2 && (2 * q + r) % 2 == r % 2
  {
  }

  lemma BitIs(e: nat)
    ensures Bit(e, 1) <==> e / 2 % 2 == 1
    ensures Bit(e, 2) <==> e / 2 / 2 % 2 == 1
  {
    assert Bit(e, 1) == Bit(e / 2, 0) && Bit(e, 2) == Bit(e / 2, 1) == Bit(e / 2 / 2, 0);
  }

  lemma LowBit(w: Word)
    ensures w % 4096 % 2 == w % 2
  {
    assert w == w / 4096 * 4096 + w % 4096;
    Split(w / 4096, w % 4096);
  }

  /** The k-th address task_copy_vm looks at. */
  function RunAt(k: nat): Word
    requires RUN + k < NPAGES
  {
    0x0804_8080 + k * 4096
  }

  /** The loop has come to the k-th address. */
  ghost predicate AtRun(addr: Word, k: nat) {
    forall i {:trigger LookAt(i, k)} :: LookAt(i, k) ==> RUN + k < NPAGES && addr == RunAt(k)
  }

  lemma RunFirst()
    ensures AtRun(0x0804_8080, 0)
  {
  }

  lemma RunLoop(addr: Word, k: nat)
    requires RUN + k + 1 < NPAGES && AtRun(addr, k)
    ensures Page(addr) == RUN + k && AtRun(NextPage(addr), k + 1)
  {
    assert LookAt(0, k);
  }

  lemma CopiedStart(s: Snap, p: nat, c: nat, n: nat)
    requires Inv(s) && p in s.dirs && c in s.dirs && p != c && Holds(IsRun(s, p, n)) && n <= ROOM
    ensures Holds(Copied(s, s, p, c, n, 0, 0, []))
  {
  }

  /** The copy of k pages of p's run for directory c: the new table t and the
      page copies fs. */
  ghost predicate Copied(s0: Snap, s: Snap, p: nat, c: nat, n: nat, k: nat, t: nat, fs: seq<nat>) {
    && Inv(s0) && p in s0.dirs && c in s0.dirs && p != c && IsRun(s0, p, n)
    && k <= n <= ROOM && |fs| == k
    && (k == 0 ==> s == s0)
    && (k > 0 ==> CopiedFrames(s0, s, t, fs) && CopiedTables(s0, s, p, c, n, t, fs)
                  && CopiedPages(s0, s, p, c, n, t, fs))
  }

  /** The frames used: t and fs, distinct and taken from the free ones. */
  ghost predicate CopiedFrames(s0: Snap, s: Snap, t: nat, fs: seq<nat>) {
    && t in s0.free && t !in fs
    && (forall j :: 0 <= j < |fs| ==> fs[j] in s0.free)
    && (forall i, j :: 0 <= i < j < |fs| ==> fs[i] != fs[j])
    && s.slot == s0.slot[t := RUN_INDEX] && s.dirs == s0.dirs && s.kc == s0.kc && s.ioc == s0.ioc
    && (forall f :: f in s.free <==> f in s0.free && f != t && f !in fs)
    && |s.free| + |fs| + 1 == |s0.free|
  }

  /** What is in the directory and the table. */
  ghost predicate CopiedTables(s0: Snap, s: Snap, p: nat, c: nat, n: nat, t: nat, fs: seq<nat>)
    requires IsRun(s0, p, n) && n <= ROOM && c < NF && |fs| <= n && t < NF
    requires forall j :: 0 <= j < |fs| ==> fs[j] < NF
  {
    && |s.mem| == NF
    && s.mem[c] == s0.mem[c][RUN_INDEX := Retarget(t, s0.mem[p][RUN_INDEX])]
    && (forall j :: 0 <= j < |fs| ==> s.mem[t][RUN_SLOT + j] == Retarget(fs[j], RunEntry(s0, p, n, j)))
    && NotZeroed(s0, s, t, |fs|)
  }

  /** The new table keeps whatever its frame held outside the run. */
  ghost predicate NotZeroed(s0: Snap, s: Snap, t: nat, k: nat)
    requires t < |s0.mem| && t < |s.mem|
  {
    forall j :: 0 <= j < 1024 && !(RUN_SLOT <= j < RUN_SLOT + k) ==> s.mem[t][j] == s0.mem[t][j]
  }

  /** What is in the pages, and in all other frames. */
  ghost predicate CopiedPages(s0: Snap, s: Snap, p: nat, c: nat, n: nat, t: nat, fs: seq<nat>)
    requires Inv(s0) && IsRun(s0, p, n) && |fs| <= n && forall j :: 0 <= j < |fs| ==> fs[j] in s0.free
  {
    && |s.mem| == NF
    && (forall j :: 0 <= j < |fs| ==> s.mem[fs[j]] == s0.mem[Target(RunEntry(s0, p, n, j))])
    && (forall f: nat :: f < NF && f != c && f != t && f !in fs ==> s.mem[f] == s0.mem[f])
  }

  /** One more page: f is taken and filled, on the first page t is taken and
      entered in the directory, then the entry is written. */
  ghost predicate CopyStep(s: Snap, s': Snap, c: nat, k: nat, t: nat, f: nat, dst: Word, src: Frame, entry: Word) {
    && f in s.free && f < NF && t < NF && c < NF && |s.mem| == NF && k < ROOM
    && (k == 0 ==> t in s.free && t != f && t != c && f != c)
    && var m1 := s.mem[f := src];
    && var m2 := if k == 0 then m1[c := m1[c][RUN_INDEX := dst]] else m1;
    && s' == s.(mem := m2[t := m2[t][RUN_SLOT + k := entry]],
                free := s.free - {f} - (if k == 0 then {t} else {}),
                slot := if k == 0 then s.slot[t := RUN_INDEX] else s.slot)
  }

  lemma CopyNext(s0: Snap, s: Snap, s': Snap, p: nat, c: nat, n: nat, k: nat, t: nat, fs: seq<nat>, f: nat,
                 dst: Word, src: Frame, entry: Word)
    requires Holds(Copied(s0, s, p, c, n, k, t, fs)) && k < n
    requires Holds(CopyStep(s, s', c, k, t, f, dst, src, entry))
    requires dst == Retarget(t, s0.mem[p][RUN_INDEX]) && src == s0.mem[Target(RunEntry(s0, p, n, k))]
    requires entry == Retarget(f, RunEntry(s0, p, n, k))
    ensures Holds(Copied(s0, s', p, c, n, k + 1, t, fs + [f]))
  {
    CopyNextFrames(s0, s, s', p, c, n, k, t, fs, f, dst, src, entry);
    CopyNextTables(s0, s, s', p, c, n, k, t, fs, f, dst, src, entry);
    CopyNextPages(s0, s, s', p, c, n, k, t, fs, f, dst, src, entry);
  }

  lemma CopyNextFrames(s0: Snap, s: Snap, s': Snap, p: nat, c: nat, n: nat, k: nat, t: nat, fs: seq<nat>, f: nat,
                       dst: Word, src: Frame, entry: Word)
    requires Holds(Copied(s0, s, p, c, n, k, t, fs)) && k < n
    requires Holds(CopyStep(s, s', c, k, t, f, dst, src, entry))
    ensures Holds(CopiedFrames(s0, s', t, fs + [f]))
  {
    if k == 0 {
      assert fs + [f] == [f];
      FirstFrames(s0, s', c, t, f, dst, src, entry);
    } else {
      LaterFrames(s0, s, s', c, k, t, fs, f, dst, src, entry);
    }
  }

  lemma FirstFrames(s0: Snap, s': Snap, c: nat, t: nat, f: nat, dst: Word, src: Frame, entry: Word)
    requires CopyStep(s0, s', c, 0, t, f, dst, src, entry)
    ensures Holds(CopiedFrames(s0, s', t, [f]))
  {
    assert s0.free == s'.free + {f} + {t};
  }

  lemma LaterFrames(s0: Snap, s: Snap, s': Snap, c: nat, k: nat, t: nat, fs: seq<nat>, f: nat,
                    dst: Word, src: Frame, entry: Word)
    requires k > 0 && CopiedFrames(s0, s, t, fs) && CopyStep(s, s', c, k, t, f, dst, src, entry)
    ensures Holds(CopiedFrames(s0, s', t, fs + [f]))
  {
    assert s.free == s'.free + {f};
  }

  lemma CopyStepTables(s: Snap, s': Snap, c: nat, k: nat, t: nat, f: nat, dst: Word, src: Frame, entry: Word)
    requires CopyStep(s, s', c, k, t, f, dst, src, entry) && f != t && f != c && t != c
    ensures |s'.mem| == NF
    ensures s'.mem[t] == s.mem[t][RUN_SLOT + k := entry]
    ensures s'.mem[c] == if k == 0 then s.mem[c][RUN_INDEX := dst] else s.mem[c]
  {
  }

  lemma CopyNextTables(s0: Snap, s: Snap, s': Snap, p: nat, c: nat, n: nat, k: nat, t: nat, fs: seq<nat>, f: nat,
                       dst: Word, src: Frame, entry: Word)
    requires Holds(Copied(s0, s, p, c, n, k, t, fs)) && k < n
    requires Holds(CopyStep(s, s', c, k, t, f, dst, src, entry))
    requires CopiedFrames(s0, s', t, fs + [f]) && dst == Retarget(t, s0.mem[p][RUN_INDEX])
    requires entry == Retarget(f, RunEntry(s0, p, n, k))
    ensures Holds(CopiedTables(s0, s', p, c, n, t, fs + [f]))
  {
    assert (fs + [f])[k] == f && f in s.free && c !in s0.free;
    CopyStepTables(s, s', c, k, t, f, dst, src, entry);
    TablesSnoc(s0, s, s', p, c, n, t, fs, f, entry);
  }

  /** The new table with one entry more */
  lemma TablesSnoc(s0: Snap, s: Snap, s': Snap, p: nat, c: nat, n: nat, t: nat, fs: seq<nat>, f: nat, entry: Word)
    requires IsRun(s0, p, n) && |s.mem| == |s'.mem| == NF && c < NF && |fs| < n <= ROOM && t < NF && f < NF
    requires forall j :: 0 <= j < |fs| ==> fs[j] < NF
    requires |fs| == 0 ==> s.mem == s0.mem
    requires |fs| > 0 ==> CopiedTables(s0, s, p, c, n, t, fs)
    requires s'.mem[c] == if |fs| == 0 then s0.mem[c][RUN_INDEX := Retarget(t, s0.mem[p][RUN_INDEX])] else s.mem[c]
    requires entry == Retarget(f, RunEntry(s0, p, n, |fs|)) && s'.mem[t] == s.mem[t][RUN_SLOT + |fs| := entry]
    ensures Holds(CopiedTables(s0, s', p, c, n, t, fs + [f]))
  {
  }

  lemma CopyStepOthers(s: Snap, s': Snap, c: nat, k: nat, t: nat, f: nat, dst: Word, src: Frame, entry: Word)
    requires CopyStep(s, s', c, k, t, f, dst, src, entry) && f != t
    ensures |s'.mem| == NF
    ensures forall g: nat :: g < NF && g != c && g != t ==> s'.mem[g] == if g == f then src else s.mem[g]
  {
  }

  lemma CopyNextPages(s0: Snap, s: Snap, s': Snap, p: nat, c: nat, n: nat, k: nat, t: nat, fs: seq<nat>, f: nat,
                      dst: Word, src: Frame, entry: Word)
    requires Holds(Copied(s0, s, p, c, n, k, t, fs)) && k < n
    requires Holds(CopyStep(s, s', c, k, t, f, dst, src, entry))
    requires Holds(CopiedFrames(s0, s', t, fs + [f])) && src == s0.mem[Target(RunEntry(s0, p, n, k))]
    ensures Holds(CopiedPages(s0, s', p, c, n, t, fs + [f]))
  {
    assert (fs + [f])[k] == f && f in s.free && f != t;
    CopyStepOthers(s, s', c, k, t, f, dst, src, entry);
    PagesSnoc(s0, s.mem, s'.mem, p, c, n, t, fs, f, src);
  }

  /** One page more in memory m', on top of the pages fs in m. */
  lemma PagesSnoc(s0: Snap, m: seq<Frame>, m': seq<Frame>, p: nat, c: nat, n: nat, t: nat, fs: seq<nat>, f: nat,
                  src: Frame)
    requires |s0.mem| == |m| == |m'| == NF && IsRun(s0, p, n) && |fs| < n && f != t && f != c && f < NF && f !in fs
    requires forall j :: 0 <= j < |fs| ==> fs[j] < NF && fs[j] != t && fs[j] != c
    requires src == s0.mem[Target(RunEntry(s0, p, n, |fs|))]
    requires forall g: nat :: g < NF && g != c && g != t ==> m'[g] == if g == f then src else m[g]
    requires forall j :: 0 <= j < |fs| ==> m[fs[j]] == s0.mem[Target(RunEntry(s0, p, n, j))]
    requires forall g: nat :: g < NF && g != c && g != t && g !in fs ==> m[g] == s0.mem[g]
    ensures forall j :: 0 <= j < |fs| + 1 ==>
      (fs + [f])[j] < NF && m'[(fs + [f])[j]] == s0.mem[Target(RunEntry(s0, p, n, j))]
    ensures forall g: nat :: g < NF && g != c && g != t && g !in fs + [f] ==> m'[g] == s0.mem[g]
  {
  }

  /** A finished copy leaves all roles in order. */
  lemma CopiedInv(s0: Snap, s: Snap, p: nat, c: nat, n: nat, k: nat, t: nat, fs: seq<nat>)
    requires Holds(Copied(s0, s, p, c, n, k, t, fs)) && k > 0
    ensures Inv(s)
  {
    CopiedRoles(s0, s, p, c, n, k, t, fs);
    RunEntryIs(s0, p, n, 0);
    forall x, i | x in s.dirs && 0 <= i < 1024 ensures EntryOk(s, s.mem[x][i], i) {
      assert EntryOk(s0, s0.mem[x][i], i) && EntryOk(s0, s0.mem[p][i], i);
    }
    forall i | 0 <= i < 64 ensures EntryOk(s, s.mem[s.kc][i], 768 + i) {
      assert EntryOk(s0, s0.mem[s.kc][i], 768 + i);
    }
    forall i | 0 <= i < 8 ensures EntryOk(s, s.mem[s.ioc][i], 1016 + i) {
      assert EntryOk(s0, s0.mem[s.ioc][i], 1016 + i);
    }
  }

  lemma CopiedRoles(s0: Snap, s: Snap, p: nat, c: nat, n: nat, k: nat, t: nat, fs: seq<nat>)
    requires Holds(Copied(s0, s, p, c, n, k, t, fs)) && k > 0
    ensures Roles(s) && SameDirs(s0, s)
  {
  }

  /** No directory but the child's changes, and the child's only at one entry. */
  lemma CopiedElsewhere(s0: Snap, s: Snap, p: nat, c: nat, n: nat, k: nat, t: nat, fs: seq<nat>, x: nat, q: nat)
    requires Holds(Copied(s0, s, p, c, n, k, t, fs)) && x in s0.dirs && q < NPAGES
    requires x != c || q / 1024 != RUN_INDEX
    ensures |s.mem| == NF && x < NF && Walk(s.mem, x, q) == Walk(s0.mem, x, q)
  {
    assert EntryOk(s0, s0.mem[x][q / 1024], q / 1024);
  }

  /** Page k of the child's run: a fresh frame, with the parent's flags and
      contents. */
  lemma CopiedChild(s0: Snap, s: Snap, p: nat, c: nat, n: nat, t: nat, fs: seq<nat>, k: nat)
    requires Holds(Copied(s0, s, p, c, n, n, t, fs)) && k < n
    ensures |s.mem| == NF && c < NF && fs[k] in s0.free && fs[k] < NF
    ensures Walk(s.mem, c, RUN + k) == Some(Retarget(fs[k], RunEntry(s0, p, n, k)))
    ensures s.mem[fs[k]] == s0.mem[Target(RunEntry(s0, p, n, k))]
    ensures IsData(s, fs[k])
  {
    RunEntryIs(s0, p, n, k);
    assert (RUN + k) / 1024 == RUN_INDEX && (RUN + k) % 1024 == RUN_SLOT + k;
  }

  /** What the loop of task_copy_vm reads on its way is what it was at the
      start, and it ends exactly after the run. */
  lemma CopiedReads(s0: Snap, s: Snap, p: nat, c: nat, n: nat, k: nat, t: nat, fs: seq<nat>)
    requires Holds(Copied(s0, s, p, c, n, k, t, fs))
    ensures Holds(Inv(s)) && s.dirs == s0.dirs
    ensures s.mem[p] == s0.mem[p] && Walk(s.mem, p, RUN + k) == Walk(s0.mem, p, RUN + k)
    ensures Walk(s.mem, p, RUN + k).Some? <==> k < n
    ensures k < n ==>
      Walk(s.mem, p, RUN + k) == Some(RunEntry(s0, p, n, k))
      && s.mem[Target(RunEntry(s0, p, n, k))] == s0.mem[Target(RunEntry(s0, p, n, k))]
    ensures k > 0 ==> t == Target(s.mem[c][RUN_INDEX]) < NF && t != c && t !in s.free
    ensures |s.free| + (if k == 0 then 0 else k + 1) == |s0.free|
  {
    if k > 0 {
      CopiedInv(s0, s, p, c, n, k, t, fs);
    }
    CopiedElsewhere(s0, s, p, c, n, k, t, fs, p, RUN + k);
    CopiedData(s0, s, p, c, n, k, t, fs);
    if k < n {
      assert Walk(s0.mem, p, RUN + k) == Some(RunEntry(s0, p, n, k));
    } else {
      assert Walk(s0.mem, p, RUN + k) == None;
    }
  }

  lemma CopiedData(s0: Snap, s: Snap, p: nat, c: nat, n: nat, k: nat, t: nat, fs: seq<nat>)
    requires Holds(Copied(s0, s, p, c, n, k, t, fs))
    ensures DataKept(s0, s)
  {
  }

  lemma CopiedRights(s0: Snap, s: Snap, p: nat, c: nat, n: nat, k: nat, t: nat, fs: seq<nat>)
    requires Holds(Valid(s0)) && Holds(Copied(s0, s, p, c, n, k, t, fs)) && k > 0 && Roles(s)
    ensures RightsOk(s)
  {
    RetargetRights(t, s0.mem[p][RUN_INDEX]);
    assert DirRights(s0, p, RUN_INDEX);
    forall x, i | x in s.dirs && 0 <= i < 1024 ensures DirRights(s, x, i) {
      assert DirRights(s0, x, i);
    }
  }

  lemma CopiedValid(s0: Snap, s: Snap, p: nat, c: nat, n: nat, k: nat, t: nat, fs: seq<nat>)
    requires Holds(Valid(s0)) && Holds(Copied(s0, s, p, c, n, k, t, fs))
    ensures Holds(Valid(s)) && SameDirs(s0, s)
  {
    if k > 0 {
      CopiedInv(s0, s, p, c, n, k, t, fs);
      CopiedRoles(s0, s, p, c, n, k, t, fs);
      CopiedRights(s0, s, p, c, n, k, t, fs);
      forall x | x in s.dirs ensures Complete(s, KernelWindow(s), x) && Complete(s, IoWindow(s), x) {
        assert Complete(s0, KernelWindow(s0), x) && Complete(s0, IoWindow(s0), x);
        forall q | 768 * 1024 <= q < NPAGES ensures Walk(s.mem, x, q) == Walk(s0.mem, x, q) {
          CopiedElsewhere(s0, s, p, c, n, k, t, fs, x, q);
        }
      }
    }
  }

  lemma ChildPages(s0: Snap, s: Snap, p: nat, c: nat, n: nat, t: nat, fs: seq<nat>)
    requires Holds(Copied(s0, s, p, c, n, n, t, fs)) && 0 < n && Walk(s0.mem, c, RUN + n) == None
    ensures t in s0.free && t < NF && |s0.mem| == NF && n <= ROOM && |s.mem| == NF && c < NF
    ensures forall k :: 0 <= k < n ==> RunPage(s, c, k)
    ensures Walk(s.mem, c, RUN + n) == None <==> n == ROOM || !Present(s0.mem[t][RUN_SLOT + n])
  {
    forall k | 0 <= k < n ensures RunPage(s, c, k) {
      CopiedChild(s0, s, p, c, n, t, fs, k);
    }
    if n == ROOM {
      CopiedElsewhere(s0, s, p, c, n, n, t, fs, c, RUN + n);
    } else {
      assert (RUN + n) / 1024 == RUN_INDEX && (RUN + n) % 1024 == RUN_SLOT + n;
      RunEntryIs(s0, p, n, 0);
    }
  }

  /** When the child, its stack mapped outside the run, can be forked itself:
      unless the run ends with its directory entry, exactly if the word behind the
      run's last in the table's frame happens not to be present, since the frame
      is not zeroed. */
  lemma ForkableIff(s0: Snap, s: Snap, s': Snap, p: nat, c: nat, n: nat, t: nat, fs: seq<nat>, stack: nat, pte: Word)
    requires Holds(Copied(s0, s, p, c, n, n, t, fs)) && 0 < n && Walk(s0.mem, c, RUN + n) == None
    requires UserMapped(s, s', c, stack, pte) && !(RUN <= stack <= RUN + n)
    ensures t in s0.free && t < NF && |s0.mem| == NF && n <= ROOM
    ensures IsRun(s', c, n) <==> n == ROOM || !Present(s0.mem[t][RUN_SLOT + n])
  {
    ChildPages(s0, s, p, c, n, t, fs);
    RunBesideStack(s, s', c, n, stack, pte);
  }

  lemma RunBesideStack(s: Snap, s': Snap, c: nat, n: nat, stack: nat, pte: Word)
    requires UserMapped(s, s', c, stack, pte) && !(RUN <= stack <= RUN + n)
    requires |s.mem| == NF && c < NF && n <= ROOM && forall k :: 0 <= k < n ==> RunPage(s, c, k)
    ensures IsRun(s', c, n) <==> Walk(s.mem, c, RUN + n) == None
  {
    UserKeepsData(s, s', c, stack, pte);
    UserWalks(s, s', c, stack, pte, RUN + n);
    forall k | 0 <= k < n ensures RunPage(s', c, k) {
      assert RunPage(s, c, k);
      UserWalks(s, s', c, stack, pte, RUN + k);
    }
  }

  // ------------------------------------------------------------ the directory

  /** memcpy(npdir, fgtask->pdir, 4096) */
  ghost predicate DirCopied(s: Snap, s': Snap, p: nat, c: nat) {
    && Roles(s) && p in s.dirs && c in s.dirs && p != c
    && s' == s.(mem := s.mem[c := s.mem[p]])
  }

  /** The child walks like the parent; every other directory as before. */
  lemma DirCopiedWalks(s: Snap, s': Snap, p: nat, c: nat, x: nat, q: nat)
    requires Inv(s) && DirCopied(s, s', p, c) && x in s.dirs && q < NPAGES
    ensures Walk(s'.mem, x, q) == Walk(s.mem, if x == c then p else x, q)
  {
    assert EntryOk(s, s.mem[x][q / 1024], q / 1024) && EntryOk(s, s.mem[p][q / 1024], q / 1024);
  }

  lemma DirCopiedValid(s: Snap, s': Snap, p: nat, c: nat)
    requires Holds(Valid(s)) && Holds(DirCopied(s, s', p, c))
    ensures Holds(Valid(s')) && DataKept(s, s')
  {
    forall x, i | x in s'.dirs && 0 <= i < 1024 ensures EntryOk(s', s'.mem[x][i], i) {
      assert EntryOk(s, s.mem[x][i], i) && EntryOk(s, s.mem[p][i], i);
    }
    forall i | 0 <= i < 64 ensures EntryOk(s', s'.mem[s.kc][i], 768 + i) {
      assert EntryOk(s, s.mem[s.kc][i], 768 + i);
    }
    forall i | 0 <= i < 8 ensures EntryOk(s', s'.mem[s.ioc][i], 1016 + i) {
      assert EntryOk(s, s.mem[s.ioc][i], 1016 + i);
    }
    forall x, i | x in s'.dirs && 0 <= i < 1024 ensures DirRights(s', x, i) {
      assert DirRights(s, x, i) && DirRights(s, p, i);
    }
    forall x | x in s'.dirs ensures Complete(s', KernelWindow(s'), x) && Complete(s', IoWindow(s'), x) {
      var y := if x == c then p else x;
      assert Complete(s, KernelWindow(s), y) && Complete(s, IoWindow(s), y);
      forall q | 768 * 1024 <= q < NPAGES ensures Walk(s'.mem, x, q) == Walk(s.mem, y, q) {
        DirCopiedWalks(s, s', p, c, x, q);
      }
    }
  }

  /** A run stays a run while the directory walks as before and data is kept. */
  lemma RunKept(s: Snap, s': Snap, p: nat, n: nat)
    requires IsRun(s, p, n) && DataKept(s, s') && |s'.mem| == NF
    requires forall q :: 0 <= q < NPAGES ==> Walk(s'.mem, p, q) == Walk(s.mem, p, q)
    ensures IsRun(s', p, n)
    ensures forall k :: 0 <= k < n ==> RunEntry(s', p, n, k) == RunEntry(s, p, n, k)
  {
    forall k | 0 <= k < n ensures RunPage(s', p, k) {
      assert RunPage(s, p, k);
    }
  }

  // ---------------------------------------------------------------- the whole

  /** Fork isolation between the parent p before the fork and the child c after
      it; `stack` is the page the child's stack is mapped at. Every page of the
      run is in the child at a frame that was free, with the parent's flags and
      contents, except where the stack was mapped over it; the parent's run is
      unchanged; no two pages of the child's run share a frame. */
  ghost predicate Isolated(s: Snap, s': Snap, p: nat, c: nat, n: nat, stack: nat) {
    && IsRun(s, p, n) && |s'.mem| == NF && c < NF
    && (forall k :: 0 <= k < n ==> ParentPage(s, s', p, n, k))
    && (forall k :: 0 <= k < n && RUN + k != stack ==> ChildPage(s, s', p, c, n, k))
    && (forall j, k :: 0 <= j < k < n && RUN + j != stack && RUN + k != stack ==>
          RunFrame(s', c, j) != RunFrame(s', c, k))
  }

  /** The frame behind page k of a run. */
  ghost function RunFrame(s: Snap, c: nat, k: nat): nat
    requires |s.mem| == NF && c < NF && RUN + k < NPAGES
  {
    if Walk(s.mem, c, RUN + k).Some? then Target(Walk(s.mem, c, RUN + k).value) else NF
  }

  ghost predicate ParentPage(s: Snap, s': Snap, p: nat, n: nat, k: nat)
    requires IsRun(s, p, n) && k < n && |s'.mem| == NF
  {
    var e := RunEntry(s, p, n, k);
    Walk(s'.mem, p, RUN + k) == Some(e) && s'.mem[Target(e)] == s.mem[Target(e)]
  }

  ghost predicate ChildPage(s: Snap, s': Snap, p: nat, c: nat, n: nat, k: nat)
    requires IsRun(s, p, n) && k < n && |s'.mem| == NF && c < NF
  {
    var e, f := RunEntry(s, p, n, k), RunFrame(s', c, k);
    && f in s.free && f < NF && IsData(s', f)
    && Walk(s'.mem, c, RUN + k) == Some(Retarget(f, e))
    && s'.mem[f] == s.mem[Target(e)]
  }

  /** After the copy, before the stack is mapped (NPAGES is no page). */
  lemma CopiedIsolated(s0: Snap, s: Snap, p: nat, c: nat, n: nat, t: nat, fs: seq<nat>)
    requires Holds(Copied(s0, s, p, c, n, n, t, fs))
    ensures Holds(Isolated(s0, s, p, c, n, NPAGES))
  {
    CopiedData(s0, s, p, c, n, n, t, fs);
    forall k | 0 <= k < n
      ensures ParentPage(s0, s, p, n, k) && ChildPage(s0, s, p, c, n, k) && RunFrame(s, c, k) == fs[k]
    {
      CopiedElsewhere(s0, s, p, c, n, n, t, fs, p, RUN + k);
      CopiedChild(s0, s, p, c, n, t, fs, k);
    }
  }

  /** Mapping the child's stack spoils nothing but the page it covers. */
  lemma StackIsolated(s: Snap, s1: Snap, s2: Snap, p: nat, c: nat, n: nat, stack: nat, pte: Word)
    requires Holds(Isolated(s, s1, p, c, n, NPAGES)) && Holds(UserMapped(s1, s2, c, stack, pte))
    requires p in s1.dirs && p != c && n <= ROOM && Holds(SeparateTables(s1, p, c, n))
    requires forall k :: 0 <= k < n ==> IsData(s1, RunFrame(s1, c, k))
    requires DataKept(s, s1)
    ensures Holds(Isolated(s, s2, p, c, n, stack))
    ensures |s2.mem| == NF && c < NF
    ensures forall k :: 0 <= k < n && RUN + k != stack ==> RunFrame(s2, c, k) == RunFrame(s1, c, k)
  {
    UserKeepsData(s1, s2, c, stack, pte);
    forall k | 0 <= k < n ensures ParentPage(s, s2, p, n, k) {
      StackParent(s, s1, s2, p, c, n, stack, pte, k);
    }
    forall k | 0 <= k < n && RUN + k != stack
      ensures ChildPage(s, s2, p, c, n, k) && RunFrame(s2, c, k) == RunFrame(s1, c, k)
    {
      StackChild(s, s1, s2, p, c, n, stack, pte, k);
    }
  }

  lemma StackParent(s: Snap, s1: Snap, s2: Snap, p: nat, c: nat, n: nat, stack: nat, pte: Word, k: nat)
    requires IsRun(s, p, n) && k < n <= ROOM && |s1.mem| == NF && ParentPage(s, s1, p, n, k)
    requires UserMapped(s1, s2, c, stack, pte) && p in s1.dirs && p != c && SeparateTables(s1, p, c, n)
    requires DataKept(s, s1) && DataKept(s1, s2)
    ensures ParentPage(s, s2, p, n, k)
  {
    UserWalksElsewhere(s1, s2, c, stack, pte, p, RUN + k);
  }

  lemma StackChild(s: Snap, s1: Snap, s2: Snap, p: nat, c: nat, n: nat, stack: nat, pte: Word, k: nat)
    requires IsRun(s, p, n) && k < n && RUN + k != stack && c < NF && |s1.mem| == NF && ChildPage(s, s1, p, c, n, k)
    requires UserMapped(s1, s2, c, stack, pte) && IsData(s1, RunFrame(s1, c, k))
    requires DataKept(s1, s2)
    ensures ChildPage(s, s2, p, c, n, k) && RunFrame(s2, c, k) == RunFrame(s1, c, k)
  {
    UserWalks(s1, s2, c, stack, pte, RUN + k);
  }

  /** Parent and child have different tables for the run. */
  ghost predicate SeparateTables(s: Snap, p: nat, c: nat, n: nat)
    requires p < |s.mem| && c < |s.mem|
  {
    n > 0 ==> Target(s.mem[p][RUN_INDEX]) != Target(s.mem[c][RUN_INDEX])
  }
}
