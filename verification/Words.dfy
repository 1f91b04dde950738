/** Machine words and the bit operators the kernel uses on them.

    Shifts right are divisions by powers of two and masks of low bits are
    remainders; `|` and `& ~` are defined here on the binary digits of their
    operands and connected to arithmetic by the lemmas of this module. */
module Words {

  type Word = x: int | 0 <= x < 0x1_0000_0000

  type Byte = x: int | 0 <= x < 256

  /** A C int */
  type Int32 = x: int | -0x8000_0000 <= x <= 0x7FFF_FFFF

  function Abs(x: int): nat {
    if x < 0 then -x else x
  }

  /** a / b in C, truncated toward zero */
  function TruncDiv(a: int, b: int): int
    requires b != 0
  {
    if (a < 0) == (b < 0) then Abs(a) / Abs(b) else -(Abs(a) / Abs(b))
  }

  /** a % b in C, with the sign of a */
  function TruncMod(a: int, b: int): int
    requires b != 0
  {
    if a < 0 then -(Abs(a) % Abs(b)) else Abs(a) % Abs(b)
  }

  /** p, stated as one fact: where a large predicate is handed from one
      contract to the next it is proved whole, not conjunct by conjunct. */
  ghost predicate Holds(p: bool) {
    p == true
  }

  /** p, carried unopened from contract to contract until Unseal looks at it. */
  ghost predicate Sealed(p: bool) {
    forall i {:trigger Look(i)} :: Look(i) ==> p
  }

  predicate Look(i: int) {
    true
  }

  /** The same for facts about pass k of a loop, told apart by k. */
  predicate LookAt(i: int, k: nat) {
    true
  }

  lemma Unseal(p: bool)
    requires Sealed(p)
    ensures p
  {
    assert Look(0);
  }

  function Pow2(k: nat): (p: nat)
    ensures p > 0
  {
    if k == 0 then 1 else 2 * Pow2(k - 1)
  }

  /** The value of binary digit i of w. */
  predicate Bit(w: nat, i: nat) {
    if i == 0 then w % 2 == 1 else Bit(w / 2, i - 1)
  }

  /** a | b */
  function Or(a: nat, b: nat): nat
    decreases a
  {
    if a == 0 then b else
    2 * Or(a / 2, b / 2) + (if a % 2 == 1 || b % 2 == 1 then 1 else 0)
  }

  /** a & ~b */
  function AndNot(a: nat, b: nat): (r: nat)
    ensures r <= a
    decreases a
  {
    if a == 0 then 0 else
    2 * AndNot(a / 2, b / 2) + (if a % 2 == 1 && b % 2 == 0 then 1 else 0)
  }

  lemma {:induction false} BitOfZero(i: nat)
    ensures !Bit(0, i)
  {
    if i > 0 { BitOfZero(i - 1); }
  }

  lemma {:induction false} BitOfOr(a: nat, b: nat, i: nat)
    ensures Bit(Or(a, b), i) <==> Bit(a, i) || Bit(b, i)
  {
    if a == 0 {
      BitOfZero(i);
    } else {
      OrHalves(a, b);
      if i > 0 {
        BitOfOr(a / 2, b / 2, i - 1);
      }
    }
  }

  lemma OrHalves(a: nat, b: nat)
    requires a > 0
    ensures Or(a, b) / 2 == Or(a / 2, b / 2)
    ensures Or(a, b) % 2 == 1 <==> a % 2 == 1 || b % 2 == 1
  {
  }

  lemma {:induction false} BitOfAndNot(a: nat, b: nat, i: nat)
    ensures Bit(AndNot(a, b), i) <==> Bit(a, i) && !Bit(b, i)
  {
    if a == 0 {
      BitOfZero(i);
    } else if i > 0 {
      BitOfAndNot(a / 2, b / 2, i - 1);
      assert AndNot(a, b) / 2 == AndNot(a / 2, b / 2);
    }
  }

  /** 1 << k has exactly digit k set. */
  lemma {:induction false} BitOfPow2(k: nat, i: nat)
    ensures Bit(Pow2(k), i) <==> i == k
  {
    if k == 0 {
      if i > 0 { BitOfZero(i - 1); }
    } else if i > 0 {
      BitOfPow2(k - 1, i - 1);
      assert Pow2(k) / 2 == Pow2(k - 1);
    }
  }

  lemma {:induction false} AllOnesHasEveryDigit(k: nat, i: nat)
    requires i < k
    ensures Bit(Pow2(k) - 1, i)
  {
    assert (Pow2(k) - 1) / 2 == Pow2(k - 1) - 1;
    if i > 0 { AllOnesHasEveryDigit(k - 1, i - 1); }
  }

  /** Among the k-digit numbers, any other than all ones has a clear digit. */
  lemma {:induction false} SomeDigitClear(w: nat, k: nat) returns (i: nat)
    requires w < Pow2(k) && w != Pow2(k) - 1
    ensures i < k && !Bit(w, i)
  {
    if w % 2 == 0 {
      i := 0;
    } else {
      i := SomeDigitClear(w / 2, k - 1);
      i := i + 1;
    }
  }

  lemma {:induction false} OrBounded(a: nat, b: nat, k: nat)
    requires a < Pow2(k) && b < Pow2(k)
    ensures Or(a, b) < Pow2(k)
  {
    if k > 0 && a > 0 { OrBounded(a / 2, b / 2, k - 1); }
  }

  lemma {:induction false} OrZero(a: nat)
    ensures Or(a, 0) == a
  {
    if a > 0 { OrZero(a / 2); }
  }

  lemma {:induction false} OrComm(a: nat, b: nat)
    ensures Or(a, b) == Or(b, a)
    decreases a
  {
    if a == 0 {
      OrZero(b);
    } else {
      OrComm(a / 2, b / 2);
      OrZero(a);
    }
  }

  /** Or-ing in a value of k digits leaves everything above digit k alone. */
  lemma {:induction false} OrHigh(q: nat, r: nat, b: nat, k: nat)
    requires r < Pow2(k) && b < Pow2(k)
    ensures Or(q * Pow2(k) + r, b) == q * Pow2(k) + Or(r, b)
  {
    if k == 0 {
      OrZero(q);
    } else {
      assert q * Pow2(k) == 2 * (q * Pow2(k - 1));
      var a := q * Pow2(k) + r;
      OrHigh(q, r / 2, b / 2, k - 1);
      assert a / 2 == q * Pow2(k - 1) + r / 2 && a % 2 == r % 2;
    }
  }

  lemma Pow2Values()
    ensures Pow2(7) == 128 && Pow2(12) == 4096 && Pow2(32) == 0x1_0000_0000
  {
    assert Pow2(7) == 128;
    assert Pow2(12) == 4096;
    assert Pow2(16) == 65536;
    assert Pow2(24) == 0x100_0000;
    assert Pow2(32) == 0x1_0000_0000;
  }
}
