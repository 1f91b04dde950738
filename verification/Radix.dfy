/** Numbers and their digit sequences in base ten and base sixteen. */
module Radix {

  datatype Base = Ten | Sixteen

  function Size(b: Base): nat {
    match b case Ten => 10 case Sixteen => 16
  }

  function Quot(b: Base, n: nat): nat {
    match b case Ten => n / 10 case Sixteen => n / 16
  }

  function Rem(b: Base, n: nat): nat {
    match b case Ten => n % 10 case Sixteen => n % 16
  }

  /** n with digit d appended on the right */
  function Push(b: Base, n: nat, d: nat): nat {
    match b case Ten => n * 10 + d case Sixteen => n * 16 + d
  }

  lemma PushFacts(b: Base, n: nat, d: nat)
    requires d < Size(b)
    ensures Quot(b, Push(b, n, d)) == n && Rem(b, Push(b, n, d)) == d
  {
  }

  lemma QuotFacts(b: Base, n: nat)
    ensures n == Push(b, Quot(b, n), Rem(b, n)) && Rem(b, n) < Size(b)
    ensures n > 0 ==> Quot(b, n) < n
    ensures Quot(b, n) <= n
  {
  }

  /** The digits of n, least significant first; none for 0. */
  function Lsd(b: Base, n: nat): (ds: seq<nat>)
    ensures forall i :: 0 <= i < |ds| ==> ds[i] < Size(b)
  {
    QuotFacts(b, n);
    if n == 0 then [] else [Rem(b, n)] + Lsd(b, Quot(b, n))
  }

  /** The digits of n as they are written, most significant first; none for 0. */
  function Digits(b: Base, n: nat): (ds: seq<nat>)
    ensures forall i :: 0 <= i < |ds| ==> ds[i] < Size(b)
  {
    QuotFacts(b, n);
    if n == 0 then [] else Digits(b, Quot(b, n)) + [Rem(b, n)]
  }

  /** The number a digit sequence denotes, leading zeros and all. */
  function Value(b: Base, ds: seq<nat>): nat {
    if ds == [] then 0 else Push(b, Value(b, ds[..|ds| - 1]), ds[|ds| - 1])
  }

  function Zeros(k: nat): seq<nat> {
    seq(k, _ => 0)
  }

  /** acc followed by the digits of n in reverse */
  function RevOnto(b: Base, n: nat, acc: nat): nat {
    QuotFacts(b, n);
    if n == 0 then acc else RevOnto(b, Quot(b, n), Push(b, acc, Rem(b, n)))
  }

  /** The digit reversal of n; trailing zeros of n are lost. */
  function Rev(b: Base, n: nat): nat {
    RevOnto(b, n, 0)
  }

  /** The number of trailing zero digits of n */
  function TrailingZeros(b: Base, n: nat): nat {
    QuotFacts(b, n);
    if n == 0 || Rem(b, n) != 0 then 0 else 1 + TrailingZeros(b, Quot(b, n))
  }

  lemma {:induction false} LsdOfReversal(b: Base, n: nat, acc: nat)
    requires acc != 0
    ensures Lsd(b, RevOnto(b, n, acc)) == Digits(b, n) + Lsd(b, acc)
    decreases n
  {
    QuotFacts(b, n);
    if n == 0 {
      assert Digits(b, n) == [];
    } else {
      var q, r := Quot(b, n), Rem(b, n);
      PushFacts(b, acc, r);
      LsdOfReversal(b, q, Push(b, acc, r));
      assert Lsd(b, Push(b, acc, r)) == [r] + Lsd(b, acc);
      assert Digits(b, q) + ([r] + Lsd(b, acc)) == (Digits(b, q) + [r]) + Lsd(b, acc);
    }
  }

  /** Reversing, then writing the digits backwards and the lost zeros after
      them, writes the number. */
  lemma {:induction false} ReverseTwice(b: Base, n: nat)
    ensures Lsd(b, Rev(b, n)) + Zeros(TrailingZeros(b, n)) == Digits(b, n)
    decreases n
  {
    QuotFacts(b, n);
    if n > 0 {
      var q, r := Quot(b, n), Rem(b, n);
      assert Push(b, 0, r) == r;
      if r != 0 {
        LsdOfReversal(b, q, r);
        PushFacts(b, 0, r);
        assert Lsd(b, r) == [r] + Lsd(b, 0) == [r];
        assert Zeros(TrailingZeros(b, n)) == [];
      } else {
        ReverseTwice(b, q);
        ZerosGrow(TrailingZeros(b, q));
      }
    }
  }

  lemma ZerosGrow(k: nat)
    ensures Zeros(k + 1) == Zeros(k) + [0]
  {
  }

  lemma ValueSnoc(b: Base, ds: seq<nat>, d: nat)
    ensures Value(b, ds + [d]) == Push(b, Value(b, ds), d)
  {
    assert (ds + [d])[..|ds|] == ds;
  }

  lemma {:induction false} ValueOfDigits(b: Base, n: nat)
    ensures Value(b, Digits(b, n)) == n
    decreases n
  {
    QuotFacts(b, n);
    if n > 0 {
      ValueOfDigits(b, Quot(b, n));
      ValueSnoc(b, Digits(b, Quot(b, n)), Rem(b, n));
    }
  }

  /** Leading digits are never zero. */
  lemma {:induction false} NoLeadingZero(b: Base, n: nat)
    requires n > 0
    ensures |Digits(b, n)| > 0 && Digits(b, n)[0] != 0
    decreases n
  {
    QuotFacts(b, n);
    if Quot(b, n) > 0 {
      NoLeadingZero(b, Quot(b, n));
    }
  }

  /** The value of digits ds written after those of acc */
  function ValueOnto(b: Base, acc: nat, ds: seq<nat>): nat
    decreases |ds|
  {
    if ds == [] then acc else ValueOnto(b, Push(b, acc, ds[0]), ds[1..])
  }

  lemma {:induction false} ValueOntoSnoc(b: Base, acc: nat, ds: seq<nat>, d: nat)
    ensures ValueOnto(b, acc, ds + [d]) == Push(b, ValueOnto(b, acc, ds), d)
    decreases |ds|
  {
    if ds == [] {
      assert ([d])[1..] == [];
      assert ds + [d] == [d];
    } else {
      ValueOntoSnoc(b, Push(b, acc, ds[0]), ds[1..], d);
      assert (ds + [d])[1..] == ds[1..] + [d];
    }
  }

  lemma {:induction false} ValueFromLeft(b: Base, ds: seq<nat>)
    ensures Value(b, ds) == ValueOnto(b, 0, ds)
    decreases |ds|
  {
    if ds != [] {
      ValueFromLeft(b, ds[..|ds| - 1]);
      ValueOntoSnoc(b, 0, ds[..|ds| - 1], ds[|ds| - 1]);
      assert ds[..|ds| - 1] + [ds[|ds| - 1]] == ds;
    }
  }

  lemma {:induction false} RevIsValueOnto(b: Base, n: nat, acc: nat)
    ensures RevOnto(b, n, acc) == ValueOnto(b, acc, Lsd(b, n))
    decreases n
  {
    QuotFacts(b, n);
    if n > 0 {
      RevIsValueOnto(b, Quot(b, n), Push(b, acc, Rem(b, n)));
      assert Lsd(b, n)[1..] == Lsd(b, Quot(b, n));
    }
  }

  lemma ValueOfLsd(b: Base, n: nat)
    ensures Value(b, Lsd(b, n)) == Rev(b, n)
  {
    RevIsValueOnto(b, n, 0);
    ValueFromLeft(b, Lsd(b, n));
  }

  /** Zeros written after a number make it no smaller and do not change its reversal. */
  lemma {:induction false} TrailingZerosDrop(b: Base, ds: seq<nat>, k: nat)
    ensures Value(b, ds + Zeros(k)) >= Value(b, ds)
    ensures Rev(b, Value(b, ds + Zeros(k))) == Rev(b, Value(b, ds))
    decreases k
  {
    if k == 0 {
      assert ds + Zeros(k) == ds;
    } else {
      TrailingZerosDrop(b, ds, k - 1);
      ZerosGrow(k - 1);
      assert ds + Zeros(k) == (ds + Zeros(k - 1)) + [0];
      ValueSnoc(b, ds + Zeros(k - 1), 0);
      RevOfShift(b, Value(b, ds + Zeros(k - 1)));
    }
  }

  lemma RevOfShift(b: Base, n: nat)
    ensures Rev(b, Push(b, n, 0)) == Rev(b, n) && Push(b, n, 0) >= n
  {
    PushFacts(b, n, 0);
    assert Push(b, 0, 0) == 0;
  }

  /** Reversing twice only drops trailing zeros. */
  lemma RevRev(b: Base, n: nat)
    ensures Rev(b, Rev(b, n)) <= n
  {
    ReverseTwice(b, n);
    ValueOfLsd(b, Rev(b, n));
    TrailingZerosDrop(b, Lsd(b, Rev(b, n)), TrailingZeros(b, n));
    ValueOfDigits(b, n);
  }

  /** Digits of a register r, written backwards with any zeros after them,
      never spell a number whose reversal exceeds r. */
  lemma NeverSpells(b: Base, v: nat, r: nat, k: nat)
    requires Rev(b, v) > r
    ensures Value(b, Lsd(b, r) + Zeros(k)) != v
  {
    TrailingZerosDrop(b, Lsd(b, r), k);
    ValueOfLsd(b, r);
    RevRev(b, r);
  }

  /** b^k */
  function Power(b: Base, k: nat): nat {
    if k == 0 then 1 else Push(b, Power(b, k - 1), 0)
  }

  /** n has digit d at weight Power(b, i), `above` left of it and `below` right of it. */
  predicate Splits(b: Base, n: nat, i: nat, above: nat, d: nat, below: nat) {
    n == Push(b, above, d) * Power(b, i) + below && below < Power(b, i) && d < Size(b)
  }

  /** Digit i from the right is the one with weight Power(b, i). */
  lemma {:induction false} Position(b: Base, n: nat, i: nat) returns (above: nat, d: nat, below: nat)
    requires i < |Digits(b, n)|
    ensures Splits(b, n, i, above, d, below) && Digits(b, n)[|Digits(b, n)| - 1 - i] == d
  {
    QuotFacts(b, n);
    if i == 0 {
      above, d, below := Quot(b, n), Rem(b, n), 0;
    } else {
      var lower;
      above, d, lower := Position(b, Quot(b, n), i - 1);
      below := Push(b, lower, Rem(b, n));
      Weigh(b, Push(b, above, d), Power(b, i - 1), lower, Rem(b, n));
    }
  }

  lemma Weigh(b: Base, m: nat, w: nat, lower: nat, r: nat)
    requires lower < w && r < Size(b)
    ensures Push(b, m * w + lower, r) == m * Push(b, w, 0) + Push(b, lower, r)
    ensures Push(b, lower, r) < Push(b, w, 0)
  {
    match b
    case Ten => assert (m * w) * 10 == m * (w * 10);
    case Sixteen => assert (m * w) * 16 == m * (w * 16);
  }

  lemma {:induction false} RevBound(b: Base, n: nat, acc: nat, k: nat, j: nat)
    requires n < Power(b, k) && acc < Power(b, j)
    ensures RevOnto(b, n, acc) < Power(b, j + k)
    decreases k
  {
    QuotFacts(b, n);
    if n == 0 {
      PowerGrows(b, j, k);
    } else {
      RevBound(b, Quot(b, n), Push(b, acc, Rem(b, n)), k - 1, j + 1);
    }
  }

  lemma {:induction false} PowerGrows(b: Base, j: nat, k: nat)
    ensures Power(b, j) <= Power(b, j + k)
    decreases k
  {
    if k > 0 {
      PowerGrows(b, j, k - 1);
    }
  }
}
