/** The extended Euclidean algorithm of usr/euclid.c on 32-bit ints, with C's
    division, which truncates toward zero. */
module Euclid {
  import opened Words

  const INT_MIN := -0x8000_0000
  const INT_MAX := 0x7FFF_FFFF

  ghost predicate Divides(d: int, a: int) {
    exists k: int :: a == k * d
  }

  /** struct gcd */
  class Gcd {
    var d: Int32
    var x: Int32
    var y: Int32
    constructor () {
      d, x, y := 0, 0, 0;
    }
  }

  /** d = a x + b y is a common divisor. */
  ghost predicate Bezout(a: int, b: int, d: int, x: int, y: int) {
    a * x + b * y == d && Divides(d, a) && Divides(d, b)
  }

  /** How large the results are: trivial when b is 0 or divides a; otherwise
      2 |d| |x| <= |b| and 2 |d| |y| <= |a|. */
  ghost predicate Bounded(a: int, b: int, d: int, x: int, y: int) {
    if b == 0 then d == a && x == 1 && y == 0
    else if TruncMod(a, b) == 0 then d == b && x == 0 && y == 1
    else d != 0 && 2 * (Abs(d) * Abs(x)) <= Abs(b) && 2 * (Abs(d) * Abs(y)) <= Abs(a)
  }

  /** C's quotient and remainder from those of the absolute values */
  lemma Parts(a: int, b: int) returns (q: int, r: int)
    requires b != 0
    ensures 0 <= q && 0 <= r < Abs(b) && Abs(a) == q * Abs(b) + r
    ensures TruncDiv(a, b) == (if (a < 0) == (b < 0) then q else -q) && TruncMod(a, b) == if a < 0 then -r else r
  {
    q, r := Abs(a) / Abs(b), Abs(a) % Abs(b);
    DivMod(Abs(a), Abs(b), q, r);
  }

  lemma DivMod(a: nat, b: nat, q: int, r: int)
    requires b > 0 && q == a / b && r == a % b
    ensures a == q * b + r && 0 <= r < b && 0 <= q
  {
  }

  /** C's division law, with absolute values alongside. */
  lemma DivLaw(a: int, b: int)
    requires b != 0
    ensures a == TruncDiv(a, b) * b + TruncMod(a, b) && Abs(TruncMod(a, b)) < Abs(b)
    ensures Abs(a) == Abs(TruncDiv(a, b)) * Abs(b) + Abs(TruncMod(a, b))
  {
    var q, r := Parts(a, b);
    FromParts(a, b, q, r, TruncDiv(a, b), TruncMod(a, b));
  }

  lemma FromParts(a: int, b: int, q: int, r: int, d: int, m: int)
    requires 0 <= q && 0 <= r < Abs(b) && Abs(a) == q * Abs(b) + r
    requires d == (if (a < 0) == (b < 0) then q else -q) && m == if a < 0 then -r else r
    ensures a == d * b + m && Abs(m) < Abs(b)
    ensures Abs(a) == Abs(d) * Abs(b) + Abs(m)
  {
    Signs(q, b);
    assert Abs(d) == q && Abs(m) == r;
  }

  lemma Signs(q: int, b: int)
    ensures (-q) * b == -(q * b) && q * (-b) == -(q * b) && (-q) * (-b) == q * b
  {
  }

  lemma AbsProduct(a: int, b: int)
    ensures Abs(a * b) == Abs(a) * Abs(b)
  {
    Signs(Abs(a), Abs(b));
  }

  /** One level of the recursion keeps the Bezout identity. */
  lemma BezoutStep(a: int, b: int, d: int, x: int, y: int)
    requires b != 0 && Bezout(b, TruncMod(a, b), d, x, y)
    ensures Bezout(a, b, d, y, x - TruncDiv(a, b) * y)
  {
    var q, r := TruncDiv(a, b), TruncMod(a, b);
    DivLaw(a, b);
    var k :| b == k * d;
    var l :| r == l * d;
    Distribute(q, k, l, d);
    assert a == (q * k + l) * d;
    Expand(b, q, r, x, y);
  }

  lemma Distribute(q: int, k: int, l: int, d: int)
    ensures q * (k * d) + l * d == (q * k + l) * d
  {
  }

  lemma Expand(b: int, q: int, r: int, x: int, y: int)
    ensures (q * b + r) * y + b * (x - q * y) == b * x + r * y
  {
    assert (q * b + r) * y == (q * b) * y + r * y;
    assert b * (x - q * y) == b * x - b * (q * y);
    assert (q * b) * y == b * (q * y);
  }

  /** One level of the recursion keeps the bounds, and no product or difference
      in it leaves 32 bits. */
  lemma BoundedStep(a: int, b: int, d: int, x: int, y: int)
    requires b != 0 && Bounded(b, TruncMod(a, b), d, x, y) && Divides(d, b)
    ensures Bounded(a, b, d, y, x - TruncDiv(a, b) * y)
    ensures TruncMod(a, b) != 0 ==> 2 * Abs(TruncDiv(a, b) * y) <= Abs(a) && 2 * Abs(x - TruncDiv(a, b) * y) <= Abs(a)
    ensures TruncMod(a, b) == 0 ==> TruncDiv(a, b) * y == 0 && x == 1
  {
    var q, r := TruncDiv(a, b), TruncMod(a, b);
    DivLaw(a, b);
    if r == 0 {
    } else if TruncMod(b, r) == 0 {
      ProperDivisor(b, r);
      HalfProduct(Abs(q), Abs(b), Abs(r), Abs(a));
      assert Abs(q * y) == Abs(q) && x - q * y == -q;
    } else {
      Combine(a, b, q, r, d, x, y);
    }
  }

  /** r divides b and is smaller, so it is at most half of it. */
  lemma ProperDivisor(b: int, r: int)
    requires r != 0 && Abs(r) < Abs(b) && TruncMod(b, r) == 0
    ensures 2 * Abs(r) <= Abs(b)
  {
    DivLaw(b, r);
    NotBelowTwo(Abs(TruncDiv(b, r)), Abs(r), Abs(b));
  }

  lemma NotBelowTwo(q: nat, r: nat, b: nat)
    requires b == q * r && r < b
    ensures 2 * r <= b
  {
    if q >= 2 {
      TwiceAtMost(q, r);
    }
  }

  lemma TwiceAtMost(q: nat, r: nat)
    requires q >= 2
    ensures 2 * r <= q * r
  {
    assert q * r == 2 * r + (q - 2) * r;
  }

  lemma HalfProduct(q: nat, b: nat, r: nat, a: nat)
    requires 2 * r <= b && a == q * b + r && r >= 1
    ensures 2 * (r * q) <= a && 2 * q <= a
  {
    assert q * (2 * r) <= q * b by { MulMono(q, 2 * r, b); }
    assert q * (2 * r) == 2 * (r * q);
    MulMono(q, 1, r);
  }

  lemma MulMono(q: nat, a: nat, b: nat)
    requires a <= b
    ensures q * a <= q * b
  {
    assert q * b == q * a + q * (b - a);
  }

  lemma Combine(a: int, b: int, q: int, r: int, d: int, x: int, y: int)
    requires d != 0 && Abs(a) == Abs(q) * Abs(b) + Abs(r)
    requires 2 * (Abs(d) * Abs(x)) <= Abs(r) && 2 * (Abs(d) * Abs(y)) <= Abs(b)
    ensures 2 * (Abs(d) * Abs(y)) <= Abs(b) && 2 * (Abs(d) * Abs(x - q * y)) <= Abs(a)
    ensures 2 * Abs(q * y) <= Abs(a) && 2 * Abs(x - q * y) <= Abs(a)
  {
    AbsProduct(q, y);
    CombineAbs(Abs(a), Abs(b), Abs(q), Abs(r), Abs(d), Abs(x), Abs(y), Abs(x - q * y));
  }

  lemma CombineAbs(a: nat, b: nat, q: nat, r: nat, d: nat, x: nat, y: nat, z: nat)
    requires d >= 1 && a == q * b + r && z <= x + q * y
    requires 2 * (d * x) <= r && 2 * (d * y) <= b
    ensures 2 * (d * z) <= a && 2 * (q * y) <= a && 2 * z <= a
  {
    MulMono(d, z, x + q * y);
    Spread(d, x, q * y);
    Swap(d, q, y);
    MulMono(q, 2 * (d * y), b);
    Twice(q, d * y);
    AtLeastOnce(d, q * y);
    AtLeastOnce(d, z);
  }

  lemma Spread(d: nat, x: nat, p: nat)
    ensures d * (x + p) == d * x + d * p
  {
  }

  lemma Twice(q: nat, p: nat)
    ensures q * (2 * p) == 2 * (q * p)
  {
  }

  lemma Swap(d: nat, q: nat, y: nat)
    ensures d * (q * y) == q * (d * y)
  {
  }

  lemma AtLeastOnce(d: nat, z: nat)
    requires d >= 1
    ensures z <= d * z
  {
    MulMono(z, 1, d);
  }

  /** Every common divisor divides d: with Bezout, d is a greatest common one. */
  lemma Greatest(a: int, b: int, d: int, x: int, y: int, c: int)
    requires Bezout(a, b, d, x, y) && Divides(c, a) && Divides(c, b)
    ensures Divides(c, d)
  {
    var k :| a == k * c;
    var l :| b == l * c;
    assert a * x == (k * x) * c && b * y == (l * y) * c;
    assert d == (k * x + l * y) * c;
  }

  // -------------------------------------------------------- which one it is

  /** The divisions the recursion makes, on absolute values */
  function Rounds(a: nat, b: nat): nat
    decreases b
  {
    if b == 0 then 0 else 1 + Rounds(b, a % b)
  }

  /** d and z have the same sign, or both are 0. */
  predicate SignOf(d: int, z: int) {
    (d > 0 <==> z > 0) && (d < 0 <==> z < 0)
  }

  /** The last remainder that is not 0: C's remainders take the signs of a and b
      in turn. */
  predicate Signed(a: int, b: int, d: int) {
    SignOf(d, if Rounds(Abs(a), Abs(b)) % 2 == 0 then a else b)
  }

  lemma SignedStep(a: int, b: int, d: int)
    requires b != 0 && Signed(b, TruncMod(a, b), d)
    ensures Signed(a, b, d)
  {
    DivLaw(a, b);
    assert Abs(TruncMod(a, b)) == Abs(a) % Abs(b);
    assert Rounds(Abs(a), Abs(b)) == 1 + Rounds(Abs(b), Abs(a) % Abs(b));
  }

  /** For non-negative a and b, d is the greatest common divisor. */
  lemma NonNegative(a: int, b: int, d: int, x: int, y: int, c: int)
    requires 0 <= a && 0 <= b && Bezout(a, b, d, x, y) && Signed(a, b, d)
    ensures d >= 0
    ensures d == 0 <==> a == 0 && b == 0
    ensures Divides(c, a) && Divides(c, b) && !(a == 0 && b == 0) ==> c <= d
  {
    ZeroDivisor(a, b, d, x, y);
    if Divides(c, a) && Divides(c, b) && d > 0 {
      Greatest(a, b, d, x, y, c);
      var k :| d == k * c;
      DivisorAtMost(d, k, c);
    }
  }

  lemma ZeroDivisor(a: int, b: int, d: int, x: int, y: int)
    requires Bezout(a, b, d, x, y)
    ensures d == 0 <==> a == 0 && b == 0
  {
    var k :| a == k * d;
    var l :| b == l * d;
    if d == 0 {
      assert k * d == 0 && l * d == 0;
    }
  }

  lemma DivisorAtMost(d: int, k: int, c: int)
    requires d > 0 && d == k * c
    ensures c <= d
  {
    if c > 0 {
      PositiveFactor(k, c);
      MulMono(c, 1, k);
    }
  }

  lemma PositiveFactor(k: int, c: nat)
    requires k * c > 0
    ensures k >= 1
  {
  }

  /** The contract of euclid leaves no choice: it determines d, x and y. */
  lemma Determined(a: int, b: int, d: int, x: int, y: int, d': int, x': int, y': int)
    requires Bezout(a, b, d, x, y) && Bounded(a, b, d, x, y) && Signed(a, b, d)
    requires Bezout(a, b, d', x', y') && Bounded(a, b, d', x', y') && Signed(a, b, d')
    ensures d == d' && x == x' && y == y'
  {
    SameDivisor(a, b, d, x, y, d', x', y');
    if b != 0 && TruncMod(a, b) != 0 {
      var k :| a == k * d;
      var l :| b == l * d;
      Reduced(k, l, d, x, y);
      Reduced(k, l, d, x', y');
      HalfBound(l, d, x);
      HalfBound(l, d, x');
      HalfBound(k, d, y);
      HalfBound(k, d, y');
      Unique(k, l, x, y, x', y');
    }
  }

  lemma SameDivisor(a: int, b: int, d: int, x: int, y: int, d': int, x': int, y': int)
    requires Bezout(a, b, d, x, y) && Signed(a, b, d) && Bezout(a, b, d', x', y') && Signed(a, b, d')
    ensures d == d'
  {
    Greatest(a, b, d, x, y, d');
    Greatest(a, b, d', x', y', d);
    var k :| d == k * d';
    var l :| d' == l * d;
    Associates(d, d', k, l);
  }

  lemma Associates(d: int, e: int, k: int, l: int)
    requires d == k * e && e == l * d && SignOf(d, e)
    ensures d == e
  {
    if d > 0 {
      DivisorAtMost(d, k, e);
      DivisorAtMost(e, l, d);
    } else if d < 0 {
      Signs(k, e);
      Signs(l, d);
      DivisorAtMost(-d, k, -e);
      DivisorAtMost(-e, l, -d);
    }
  }

  lemma Reduced(k: int, l: int, d: int, x: int, y: int)
    requires d != 0 && (k * d) * x + (l * d) * y == d
    ensures k * x + l * y == 1
  {
    assert (k * d) * x == (k * x) * d && (l * d) * y == (l * y) * d;
    assert (k * x + l * y - 1) * d == 0;
  }

  lemma HalfBound(l: int, d: int, x: int)
    requires d != 0 && 2 * (Abs(d) * Abs(x)) <= Abs(l * d)
    ensures 2 * Abs(x) <= Abs(l)
  {
    AbsProduct(l, d);
    Twice(Abs(d), Abs(x));
    Swap(1, Abs(l), Abs(d));
    Cancel(Abs(d), 2 * Abs(x), Abs(l));
  }

  lemma Cancel(d: nat, x: nat, l: nat)
    requires d >= 1 && d * x <= d * l
    ensures x <= l
  {
    assert d * (l - x) == d * l - d * x;
    NonNegativeFactor(l - x, d);
  }

  lemma NonNegativeFactor(k: int, d: nat)
    requires d >= 1 && d * k >= 0
    ensures k >= 0
  {
  }

  /** Two solutions of k x + l y = 1 differ by a multiple of (l, -k). */
  lemma Unique(k: int, l: int, x: int, y: int, x': int, y': int)
    requires l != 0 && k * x + l * y == 1 && k * x' + l * y' == 1
    requires 2 * Abs(x) <= Abs(l) && 2 * Abs(x') <= Abs(l) && 2 * Abs(y) <= Abs(k) && 2 * Abs(y') <= Abs(k)
    ensures x == x' && y == y'
  {
    var u, v := x - x', y - y';
    var t := y * u - x * v;
    Difference(k, l, x, y, x', y', u, v, t);
    AtMostOne(l, t, u);
    if t != 0 {
      Opposite(l, t, x, x');
      Opposite(k, -t, y, y');
      NoHalves(k, l, t, x, y);
    }
  }

  lemma Difference(k: int, l: int, x: int, y: int, x': int, y': int, u: int, v: int, t: int)
    requires l != 0 && k * x + l * y == 1 && k * x' + l * y' == 1 && u == x - x' && v == y - y' && t == y * u - x * v
    ensures u == l * t && v == k * (-t)
  {
    assert k * u + l * v == 0;
    assert u == u * (k * x + l * y) == x * (k * u) + l * (y * u);
    assert x * (k * u) == x * (-(l * v)) == -(l * (x * v));
    assert l * (y * u) - l * (x * v) == l * (y * u - x * v);
    assert v == v * (k * x + l * y) == k * (x * v) + y * (l * v);
    assert y * (l * v) == y * (-(k * u)) == -(k * (y * u));
    assert k * (x * v) - k * (y * u) == k * (x * v - y * u);
  }

  lemma AtMostOne(l: int, t: int, u: int)
    requires l != 0 && u == l * t && Abs(u) <= Abs(l)
    ensures -1 <= t <= 1
  {
    AbsProduct(l, t);
    if Abs(t) >= 2 {
      MulMono(Abs(l), 2, Abs(t));
    }
  }

  lemma Opposite(l: int, t: int, x: int, x': int)
    requires (t == 1 || t == -1) && x - x' == l * t && 2 * Abs(x) <= Abs(l) && 2 * Abs(x') <= Abs(l)
    ensures 2 * x == l * t
  {
  }

  lemma NoHalves(k: int, l: int, t: int, x: int, y: int)
    requires 2 * x == l * t && 2 * y == k * (-t)
    ensures k * x + l * y != 1
  {
    assert k * (2 * x) == k * (l * t) && l * (2 * y) == l * (k * (-t));
    assert k * (l * t) + l * (k * (-t)) == 0;
    assert 2 * (k * x + l * y) == k * (2 * x) + l * (2 * y);
  }

  /** The divisions the recursion does are defined: C leaves INT_MIN / -1 open,
      which is reached from these two pairs and no other. */
  predicate Defined(a: int, b: int) {
    !(a == INT_MIN && b == -1) && !(a == -1 && b == INT_MIN)
  }

  lemma DefinedStep(a: Int32, b: Int32)
    requires b != 0 && Defined(a, b)
    ensures INT_MIN <= TruncMod(a, b) <= INT_MAX && Defined(b, TruncMod(a, b))
    ensures INT_MIN <= TruncDiv(a, b) <= INT_MAX
  {
    DivLaw(a, b);
    if Abs(a) < Abs(b) {
      SmallRemainder(a, b);
    }
    QuotBound(a, b);
  }

  lemma SmallRemainder(a: int, b: int)
    requires b != 0 && Abs(a) < Abs(b)
    ensures TruncMod(a, b) == a
  {
    SmallMod(Abs(a), Abs(b));
  }

  lemma SmallMod(a: nat, b: nat)
    requires a < b
    ensures a % b == a
  {
  }

  lemma QuotBound(a: Int32, b: Int32)
    requires b != 0 && !(a == INT_MIN && b == -1)
    ensures INT_MIN <= TruncDiv(a, b) <= INT_MAX
  {
    var q := Abs(a) / Abs(b);
    assert q * Abs(b) <= Abs(a);
    AtLeastOnce(Abs(b), q);
    if q == 0x8000_0000 { assert Abs(b) == 1; }
  }

  /** No division on the way down is the one C leaves open. */
  ghost predicate DividesSafely(a: Int32, b: Int32)
    decreases Abs(b)
  {
    b == 0 ||
    (!(a == INT_MIN && b == -1) &&
     (DivLaw(a, b); QuotBound(a, b); DividesSafely(b, TruncMod(a, b))))
  }

  lemma {:induction false} DefinedIff(a: Int32, b: Int32)
    ensures DividesSafely(a, b) <==> Defined(a, b)
    decreases Abs(b)
  {
    if b != 0 && Defined(a, b) {
      DivLaw(a, b);
      DefinedStep(a, b);
      DefinedIff(b, TruncMod(a, b));
    } else if a == -1 && b == INT_MIN {
      SmallRemainder(a, b);
    }
  }

  /** euclid: for all ints for which C defines it. */
  method Euclid(a: Int32, b: Int32, aux: Gcd)
    requires Defined(a, b)
    modifies aux
    ensures Bezout(a, b, aux.d, aux.x, aux.y)
    ensures Bounded(a, b, aux.d, aux.x, aux.y)
    ensures Signed(a, b, aux.d)
    decreases Abs(b)
  {
    if b == 0 {
      aux.d := a;
      aux.x := 1;
      aux.y := 0;
      assert 0 == 0 * aux.d && a == 1 * aux.d;
    } else {
      DivLaw(a, b);
      DefinedStep(a, b);
      Euclid(b, TruncMod(a, b), aux);
      BezoutStep(a, b, aux.d, aux.x, aux.y);
      BoundedStep(a, b, aux.d, aux.x, aux.y);
      SignedStep(a, b, aux.d);
      var xp := aux.x;
      var q: Int32 := TruncDiv(a, b);
      var p: Int32 := q * aux.y;
      aux.x := aux.y;
      aux.y := xp - p;
    }
  }
}
