/** Whole runs of the frame allocator, on the set of free frames that the
    methods of Pm.FrameManager are specified by. */
module FrameRuns {
  import opened Words
  import opened Pm

  datatype Op = Alloc | Release(where: Word)

  /** What pm_alloc_frame returns in a given state; 0 means out of memory. */
  ghost function Handed(free: set<nat>): nat {
    if free == {} then 0 else 4096 * Least(free)
  }

  ghost function Step(free: set<nat>, op: Op): set<nat> {
    match op
    case Alloc => if free == {} then {} else free - {Least(free)}
    case Release(where) => free + {where / 4096}
  }

  ghost function After(free: set<nat>, ops: seq<Op>): set<nat> {
    if ops == [] then free else Step(After(free, ops[..|ops| - 1]), ops[|ops| - 1])
  }

  /** The address handed out by operation i of a run. */
  ghost function HandedAt(free: set<nat>, ops: seq<Op>, i: nat): nat
    requires i < |ops| && ops[i].Alloc?
  {
    Handed(After(free, ops[..i]))
  }

  /** A client of the allocator object runs through exactly these states. */
  method Perform(m: FrameManager, ops: seq<Op>) returns (out: seq<Word>)
    requires m.Valid()
    modifies m.mngr
    ensures m.Free() == After(old(m.Free()), ops)
    ensures LockedBits(m.mngr[..]) == NFRAMES - |After(old(m.Free()), ops)|
    ensures |out| == |ops|
    ensures forall i :: 0 <= i < |ops| && ops[i].Alloc? ==> out[i] == HandedAt(old(m.Free()), ops, i)
  {
    out := [];
    for n := 0 to |ops|
      invariant m.Free() == After(old(m.Free()), ops[..n])
      invariant |out| == n
      invariant forall i :: 0 <= i < n && ops[i].Alloc? ==> out[i] == HandedAt(old(m.Free()), ops, i)
    {
      FirstOps(ops, n);
      var r := PerformOne(m, ops[n]);
      out := out + [r];
    }
    assert ops[..|ops|] == ops;
    FreePlusLocked(m);
  }

  lemma FirstOps(ops: seq<Op>, n: nat)
    requires n < |ops|
    ensures ops[..n + 1][..n] == ops[..n] && ops[..n + 1][n] == ops[n]
  {
  }

  method PerformOne(m: FrameManager, op: Op) returns (r: Word)
    requires m.Valid()
    modifies m.mngr
    ensures m.Free() == Step(old(m.Free()), op)
    ensures op.Alloc? ==> r == Handed(old(m.Free()))
  {
    r := 0;
    match op {
      case Alloc => r := m.AllocFrame();
      case Release(where) => m.FreeFrame(where);
    }
  }

  /** No frame is handed out twice without having been freed in between. */
  lemma {:induction false} NoDoubleHandout(free: set<nat>, ops: seq<Op>, i: nat, j: nat)
    requires i < j < |ops| && ops[i].Alloc? && ops[j].Alloc?
    requires HandedAt(free, ops, i) == HandedAt(free, ops, j) != 0
    ensures exists k :: i < k < j && ops[k].Release? && ops[k].where / 4096 == HandedAt(free, ops, i) / 4096
  {
    var f := HandedAt(free, ops, i) / 4096;
    assert ops[..i + 1][..i] == ops[..i];
    assert f !in After(free, ops[..i + 1]);
    if forall k :: i < k < j && ops[k].Release? ==> ops[k].where / 4096 != f {
      StaysLocked(free, ops, i + 1, j, f);
      assert false;
    }
  }

  /** A locked frame stays locked over any stretch that does not free it. */
  lemma {:induction false} StaysLocked(free: set<nat>, ops: seq<Op>, i: nat, j: nat, f: nat)
    requires i <= j <= |ops|
    requires f !in After(free, ops[..i])
    requires forall k :: i <= k < j && ops[k].Release? ==> ops[k].where / 4096 != f
    ensures f !in After(free, ops[..j])
  {
    if i < j {
      StaysLocked(free, ops, i, j - 1, f);
      assert ops[..j][..j - 1] == ops[..j - 1];
    }
  }

  /** The allocator answers 0 exactly when no frame is free if, and only if,
      frame 0 is not free. */
  lemma ZeroMeansEmpty(free: set<nat>)
    ensures (Handed(free) == 0 <==> free == {}) <==> 0 !in free
  {
    if 0 in free { assert Least(free) == 0; }
  }

  /** The net number of frames one operation takes from the free ones. */
  ghost function Taken(free: set<nat>, op: Op): int {
    match op
    case Alloc => if free == {} then 0 else 1
    case Release(where) => if where / 4096 in free then 0 else -1
  }

  ghost function Outstanding(free: set<nat>, ops: seq<Op>): int {
    if ops == [] then 0 else
    Outstanding(free, ops[..|ops| - 1]) + Taken(After(free, ops[..|ops| - 1]), ops[|ops| - 1])
  }

  lemma StepBalance(free: set<nat>, op: Op)
    ensures |Step(free, op)| + Taken(free, op) == |free|
  {
    match op {
      case Alloc =>
        if free != {} { assert free == Step(free, op) + {Least(free)}; }
      case Release(where) =>
        if where / 4096 in free { assert Step(free, op) == free; }
    }
  }

  /** Frames are conserved: the frames free after a run and the net number it
      handed out sum to those free at its start. */
  lemma {:induction false} Conservation(free: set<nat>, ops: seq<Op>)
    ensures |After(free, ops)| + Outstanding(free, ops) == |free|
  {
    if ops != [] {
      Conservation(free, ops[..|ops| - 1]);
      StepBalance(After(free, ops[..|ops| - 1]), ops[|ops| - 1]);
    }
  }

  // ------------------------------------------------------- bits of the bitmap

  /** The set bits of a word */
  function Ones(w: nat): nat {
    if w == 0 then 0 else w % 2 + Ones(w / 2)
  }

  /** The set bits of the bitmap, word by word: the locked frames */
  function LockedBits(words: seq<Word>): nat {
    if words == [] then 0 else LockedBits(words[..|words| - 1]) + Ones(words[|words| - 1])
  }

  /** The set ones among the first n digits of w */
  function OnesBelow(w: nat, n: nat): nat {
    if n == 0 then 0 else OnesBelow(w, n - 1) + if Bit(w, n - 1) then 1 else 0
  }

  lemma {:induction false} OnesBelowHalf(w: nat, n: nat)
    requires n > 0
    ensures OnesBelow(w, n) == w % 2 + OnesBelow(w / 2, n - 1)
  {
    if n > 1 {
      OnesBelowHalf(w, n - 1);
    }
  }

  lemma {:induction false} OnesCount(w: nat, n: nat)
    requires w < Pow2(n)
    ensures OnesBelow(w, n) == Ones(w)
  {
    if n > 0 {
      OnesBelowHalf(w, n);
      OnesCount(w / 2, n - 1);
    }
  }

  /** Frame f is free in the bitmap. */
  predicate FreeIn(words: seq<Word>, f: nat)
    requires f < 32 * |words|
  {
    !Bit(words[f / 32], f % 32)
  }

  ghost function FreeBelow(words: seq<Word>, n: nat): set<nat>
    requires n <= 32 * |words|
  {
    set f: nat | 0 <= f < n && FreeIn(words, f)
  }

  lemma {:induction false} WordBalance(words: seq<Word>, k: nat, n: nat)
    requires k < |words| && n <= 32
    ensures |FreeBelow(words, 32 * k + n)| + OnesBelow(words[k], n) == |FreeBelow(words, 32 * k)| + n
  {
    if n > 0 {
      WordBalance(words, k, n - 1);
      var f := 32 * k + n - 1;
      assert f / 32 == k && f % 32 == n - 1;
      assert FreeBelow(words, f + 1) == FreeBelow(words, f) + if FreeIn(words, f) then {f} else {};
    }
  }

  lemma {:induction false} BitmapBalance(words: seq<Word>, k: nat)
    requires k <= |words|
    ensures |FreeBelow(words, 32 * k)| + LockedBits(words[..k]) == 32 * k
  {
    if k > 0 {
      BitmapBalance(words, k - 1);
      WordBalance(words, k - 1, 32);
      Pow2Values();
      OnesCount(words[k - 1], 32);
      assert words[..k][..k - 1] == words[..k - 1];
    }
  }

  /** In every state the free frames and the set bits of the bitmap sum to 2^20. */
  lemma FreePlusLocked(m: FrameManager)
    requires m.Valid()
    ensures |m.Free()| + LockedBits(m.mngr[..]) == NFRAMES
  {
    var words := m.mngr[..];
    BitmapBalance(words, MNGR_SIZE);
    assert words[..MNGR_SIZE] == words;
    assert m.Free() == FreeBelow(words, NFRAMES);
  }
}
