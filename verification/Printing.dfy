/** The number printers of kprintf.c and the number parser of usr/euclid.c. */
module Printing {
  import opened Words
  import opened Radix

  function Signed(n: Word): Int32 {
    if n >= 0x8000_0000 then n - 0x1_0000_0000 else n
  }

  /** 0 to 9, then A to F */
  function DigitChar(d: nat): char
    requires d < 16
  {
    if d < 10 then ('0' as int + d) as char else ('A' as int + (d - 10)) as char
  }

  function DigitOf(c: char): nat {
    if '0' <= c <= '9' then c as nat - '0' as nat
    else if 'A' <= c <= 'F' then c as nat - 'A' as nat + 10
    else 0
  }

  function Chars(ds: seq<nat>): (s: string)
    requires forall i :: 0 <= i < |ds| ==> ds[i] < 16
    ensures |s| == |ds|
    ensures forall i :: 0 <= i < |s| ==> s[i] == DigitChar(ds[i])
  {
    if ds == [] then "" else [DigitChar(ds[0])] + Chars(ds[1..])
  }

  function DigitsOf(s: string): (ds: seq<nat>)
    ensures |ds| == |s| && forall i :: 0 <= i < |s| ==> ds[i] == DigitOf(s[i])
  {
    if s == "" then [] else [DigitOf(s[0])] + DigitsOf(s[1..])
  }

  lemma DigitsOfChars(ds: seq<nat>)
    requires forall i :: 0 <= i < |ds| ==> ds[i] < 16
    ensures DigitsOf(Chars(ds)) == ds
  {
    forall i | 0 <= i < |ds| ensures DigitOf(DigitChar(ds[i])) == ds[i] {
      OneDigit(ds[i]);
    }
  }

  lemma OneDigit(d: nat)
    requires d < 16
    ensures DigitOf(DigitChar(d)) == d && DigitChar(d) != '-'
    ensures DigitChar(d) == "0123456789ABCDEF"[d] && (d < 10 ==> DigitChar(d) as int == '0' as int + d)
    ensures d != 0 ==> DigitChar(d) != '0'
  {
  }

  lemma CharsConcat(s: seq<nat>, t: seq<nat>)
    requires forall i :: 0 <= i < |s| ==> s[i] < 16
    requires forall i :: 0 <= i < |t| ==> t[i] < 16
    ensures Chars(s + t) == Chars(s) + Chars(t)
  {
    forall i | 0 <= i < |s + t| ensures Chars(s + t)[i] == (Chars(s) + Chars(t))[i] {}
  }

  // ---- Hexadecimal

  /** n in base sixteen without leading zeros; 0 is written "00". */
  function Hex(n: nat): string {
    if n == 0 then "00" else Chars(Digits(Sixteen, n))
  }

  function ParseHex(s: string): nat {
    Value(Sixteen, DigitsOf(s))
  }

  lemma HexRoundTrip(n: nat)
    ensures ParseHex(Hex(n)) == n
    ensures n > 0 ==> |Hex(n)| > 0 && Hex(n)[0] != '0'
  {
    if n == 0 {
      assert DigitsOf("00") == [] + [0] + [0];
      ValueSnoc(Sixteen, [], 0);
      ValueSnoc(Sixteen, [] + [0], 0);
    } else {
      DigitsOfChars(Digits(Sixteen, n));
      ValueOfDigits(Sixteen, n);
      NoLeadingZero(Sixteen, n);
      OneDigit(Digits(Sixteen, n)[0]);
    }
  }

  /** Zero is written with two zeros, any other number with one symbol for each of
      its digits, the first not 0. */
  lemma HexText(n: nat, i: nat)
    requires i < |Hex(n)|
    ensures n == 0 ==> Hex(n) == "00"
    ensures n > 0 ==>
      && |Hex(n)| == |Digits(Sixteen, n)| && Hex(n)[i] == DigitChar(Digits(Sixteen, n)[i])
      && Digits(Sixteen, n)[0] != 0
  {
    if n > 0 {
      NoLeadingZero(Sixteen, n);
    }
  }

  /** A 32-bit word has at most eight hexadecimal digits, and so has its reversal. */
  lemma HexFits(n: Word)
    ensures Rev(Sixteen, n) < 0x1_0000_0000
  {
    HexPowers();
    RevBound(Sixteen, n, 0, 8, 0);
  }

  lemma HexPowers()
    ensures Power(Sixteen, 0) == 1 && Power(Sixteen, 8) == 0x1_0000_0000
  {
    assert Power(Sixteen, 4) == 0x1_0000;
  }

  // ---- Decimal

  function Natural(v: nat): string {
    if v == 0 then "0" else Chars(Digits(Ten, v))
  }

  /** The canonical signed decimal */
  function Decimal(x: int): string {
    if x < 0 then "-" + Natural(-x) else Natural(x)
  }

  function ParseDecimal(s: string): int {
    if s != "" && s[0] == '-' then 0 - Value(Ten, DigitsOf(s[1..])) else Value(Ten, DigitsOf(s))
  }

  /** The digits of r, least significant first, and then k zeros */
  function Backwards(b: Base, r: nat, k: nat): string {
    Chars(Lsd(b, r)) + Chars(Zeros(k))
  }

  lemma BackwardsDigits(b: Base, r: nat, k: nat)
    ensures Backwards(b, r, k) == Chars(Lsd(b, r) + Zeros(k))
    ensures DigitsOf(Backwards(b, r, k)) == Lsd(b, r) + Zeros(k)
    ensures r > 0 ==> |Backwards(b, r, k)| > 0 && Backwards(b, r, k)[0] != '-'
  {
    CharsConcat(Lsd(b, r), Zeros(k));
    DigitsOfChars(Lsd(b, r) + Zeros(k));
    if r > 0 {
      OneDigit(Lsd(b, r)[0]);
    }
  }

  /** The register rn after the first loop of kputd: the reversal modulo 2^32.
      For the most negative int every remainder is negative. */
  function Register(n: Word): Word {
    var v: int := Rev(Ten, Abs(Signed(n)));
    (if n == 0x8000_0000 then -v else v) % 0x1_0000_0000
  }

  /** What kputd prints. */
  function Printed(n: Word): string {
    if Register(n) == 0 then "0"
    else (if Signed(n) < 0 then "-" else "")
         + Backwards(Ten, Register(n), TrailingZeros(Ten, Abs(Signed(n))))
  }

  lemma NaturalParses(v: nat)
    ensures Value(Ten, DigitsOf(Natural(v))) == v
    ensures Natural(v) != "" && Natural(v)[0] != '-'
  {
    if v == 0 {
      assert DigitsOf("0") == [] + [0];
      ValueSnoc(Ten, [], 0);
    } else {
      DigitsOfChars(Digits(Ten, v));
      ValueOfDigits(Ten, v);
      NoLeadingZero(Ten, v);
      OneDigit(Digits(Ten, v)[0]);
    }
  }

  /** In base ten zero is written with one zero, and negative numbers have a sign in
      front; */
  lemma DecimalShape(x: int)
    ensures Decimal(0) == "0" && (x < 0 ==> Decimal(x) == "-" + Decimal(-x))
  {
  }

  /** a positive number has one symbol for each of its digits, the first not 0. */
  lemma DecimalText(x: nat, i: nat)
    requires x > 0 && i < |Decimal(x)|
    ensures |Decimal(x)| == |Digits(Ten, x)| && Decimal(x)[i] == DigitChar(Digits(Ten, x)[i])
    ensures Digits(Ten, x)[0] != 0
  {
    NoLeadingZero(Ten, x);
  }

  lemma DecimalParses(x: int)
    ensures ParseDecimal(Decimal(x)) == x
  {
    NaturalParses(Abs(x));
    if x < 0 {
      assert Decimal(x)[1..] == Natural(-x);
    }
  }

  lemma {:induction false} RevPositive(b: Base, n: nat, acc: nat)
    requires n > 0 || acc > 0
    ensures RevOnto(b, n, acc) > 0
    decreases n
  {
    QuotFacts(b, n);
    if n > 0 {
      RevPositive(b, Quot(b, n), Push(b, acc, Rem(b, n)));
    }
  }

  /** kputd is right exactly when the reversed digits fit its register;
      otherwise what it prints denotes another number. */
  lemma PrintedIff(n: Word)
    ensures Printed(n) == Decimal(Signed(n)) <==> Rev(Ten, Abs(Signed(n))) < 0x1_0000_0000
    ensures ParseDecimal(Printed(n)) == Signed(n) <==> Rev(Ten, Abs(Signed(n))) < 0x1_0000_0000
  {
    DecimalParses(Signed(n));
    if Rev(Ten, Abs(Signed(n))) < 0x1_0000_0000 {
      PrintedRight(n);
    } else {
      PrintedWrong(n);
    }
  }

  lemma PrintedRight(n: Word)
    requires Rev(Ten, Abs(Signed(n))) < 0x1_0000_0000
    ensures Printed(n) == Decimal(Signed(n))
  {
    var v := Abs(Signed(n));
    MostNegative();
    assert Register(n) == Rev(Ten, v);
    if v > 0 {
      RevPositive(Ten, v, 0);
      ReverseTwice(Ten, v);
      BackwardsDigits(Ten, Rev(Ten, v), TrailingZeros(Ten, v));
    }
  }

  lemma PrintedWrong(n: Word)
    requires Rev(Ten, Abs(Signed(n))) >= 0x1_0000_0000
    ensures ParseDecimal(Printed(n)) != Signed(n)
  {
    var v, r := Abs(Signed(n)), Register(n);
    var z := TrailingZeros(Ten, v);
    NaturalParses(0);
    assert v != 0;
    if r != 0 {
      BackwardsDigits(Ten, r, z);
      NeverSpells(Ten, v, r, z);
      ParseSigned(Backwards(Ten, r, z), Signed(n) < 0);
    }
  }

  lemma ParseSigned(body: string, negative: bool)
    requires |body| > 0 && body[0] != '-'
    ensures ParseDecimal((if negative then "-" else "") + body)
         == if negative then 0 - Value(Ten, DigitsOf(body)) else Value(Ten, DigitsOf(body))
  {
    if negative {
      assert ("-" + body)[1..] == body;
    } else {
      assert "" + body == body;
    }
  }

  /** 2^31 = 2147483648 reversed is 8463847412. */
  lemma MostNegative()
    ensures Rev(Ten, 0x8000_0000) == 8_463_847_412 >= 0x1_0000_0000
  {
    assert Rev(Ten, 0x8000_0000) == RevOnto(Ten, 21474, 84638);
    assert RevOnto(Ten, 21474, 84638) == 8463847412;
  }

  lemma TenPowers()
    ensures Power(Ten, 0) == 1 && Power(Ten, 9) == 1_000_000_000
  {
    assert Power(Ten, 5) == 100_000;
  }

  /** The bound is needed: 1000000009 is printed as 904560014. */
  lemma TenDigitsFail()
    ensures ParseDecimal(Printed(1_000_000_009)) == 904_560_014
  {
    WrappedRegister();
    PrintedReversed(1_000_000_009, 410_065_409);
    WrappedReversal();
  }

  /** A positive int without trailing zeros is printed as the reversal of its register. */
  lemma PrintedReversed(n: Word, r: Word)
    requires 0 < n < 0x8000_0000 && TrailingZeros(Ten, n) == 0 && r == Register(n) > 0
    ensures ParseDecimal(Printed(n)) == Rev(Ten, r)
  {
    BackwardsDigits(Ten, r, 0);
    ParseSigned(Backwards(Ten, r, 0), false);
    assert Lsd(Ten, r) + Zeros(0) == Lsd(Ten, r);
    ValueOfLsd(Ten, r);
  }

  lemma WrappedRegister()
    ensures Register(1_000_000_009) == 410_065_409 && TrailingZeros(Ten, 1_000_000_009) == 0
  {
    assert Rev(Ten, 1_000_000_009) == RevOnto(Ten, 10_000, 90_000);
    assert RevOnto(Ten, 10_000, 90_000) == 9_000_000_001;
  }

  lemma WrappedReversal()
    ensures Rev(Ten, 410_065_409) == 904_560_014
  {
    RevDigit(410_065_409, 41_006_540, 0, 9);
    RevDigit(41_006_540, 4_100_654, 9, 90);
    RevDigit(4_100_654, 410_065, 90, 904);
    RevDigit(410_065, 41_006, 904, 9_045);
    RevDigit(41_006, 4_100, 9_045, 90_456);
    RevDigit(4_100, 410, 90_456, 904_560);
    RevDigit(410, 41, 904_560, 9_045_600);
    RevDigit(41, 4, 9_045_600, 90_456_001);
    RevDigit(4, 0, 90_456_001, 904_560_014);
  }

  lemma RevDigit(n: nat, q: nat, acc: nat, next: nat)
    requires n > 0 && 0 <= n - q * 10 < 10 && next == acc * 10 + (n - q * 10)
    ensures RevOnto(Ten, n, acc) == RevOnto(Ten, q, next)
  {
    PushFacts(Ten, q, n - q * 10);
  }

  /** The most negative int, whose remainders are all negative, is printed wrong. */
  lemma MostNegativeFails()
    ensures ParseDecimal(Printed(0x8000_0000)) == -81_780_621
  {
    MostNegative();
    NegativeZeros();
    NegativeRegister(0x8000_0000, 0x8000_0000);
    PrintedMinus(0x8000_0000, 126_087_180, 0x8000_0000);
    NegativeReversal();
  }

  lemma NegativeRegister(n: Word, v: nat)
    requires n == 0x8000_0000 && v == Abs(Signed(n)) && Rev(Ten, v) == 8_463_847_412
    ensures Register(n) == 126_087_180
  {
  }

  /** A negative int without trailing zeros */
  lemma PrintedMinus(n: Word, r: Word, v: nat)
    requires Signed(n) < 0 && v == Abs(Signed(n)) && TrailingZeros(Ten, v) == 0 && r == Register(n) > 0
    ensures ParseDecimal(Printed(n)) == 0 - Rev(Ten, r)
  {
    BackwardsDigits(Ten, r, 0);
    ParseSigned(Backwards(Ten, r, 0), true);
    assert Lsd(Ten, r) + Zeros(0) == Lsd(Ten, r);
    ValueOfLsd(Ten, r);
  }

  lemma NegativeZeros()
    ensures TrailingZeros(Ten, 0x8000_0000) == 0
  {
  }

  lemma NegativeReversal()
    ensures Rev(Ten, 126_087_180) == 81_780_621
  {
    RevDigit(126_087_180, 12_608_718, 0, 0);
    RevDigit(12_608_718, 1_260_871, 0, 8);
    RevDigit(1_260_871, 126_087, 8, 81);
    RevDigit(126_087, 12_608, 81, 817);
    RevDigit(12_608, 1_260, 817, 8_178);
    RevDigit(1_260, 126, 8_178, 81_780);
    RevDigit(126, 12, 81_780, 817_806);
    RevDigit(12, 1, 817_806, 8_178_062);
    RevDigit(1, 0, 8_178_062, 81_780_621);
  }

  // ---- The parser

  /** A char as C's int */
  function Code(c: char): int {
    if c as int < 128 then c as int else c as int - 256
  }

  /** What toint computes over the characters before the terminating NUL. */
  function Parsed(s: string): int {
    if s == "" then 0 else Parsed(s[..|s| - 1]) * 10 + Code(s[|s| - 1]) - 48
  }

  predicate Fits(x: int) {
    -0x8000_0000 <= x <= 0x7FFF_FFFF
  }

  /** No intermediate result of toint overflows. */
  predicate NoOverflow(s: string) {
    s == "" ||
    (var n, c := Parsed(s[..|s| - 1]), Code(s[|s| - 1]);
     NoOverflow(s[..|s| - 1]) && Fits(n * 10) && Fits(n * 10 + c) && Fits(n * 10 + c - 48))
  }

  predicate AllDigits(s: string) {
    forall i :: 0 <= i < |s| ==> '0' <= s[i] <= '9'
  }

  /** On digits, leading zeros or not, toint computes their value, without
      overflow exactly up to INT_MAX - 48. */
  lemma {:induction false} ParsesIff(s: string)
    requires AllDigits(s)
    ensures Parsed(s) == Value(Ten, DigitsOf(s))
    ensures NoOverflow(s) <==> Value(Ten, DigitsOf(s)) <= 2_147_483_599
  {
    if s != "" {
      ParsesIff(s[..|s| - 1]);
      assert DigitsOf(s)[..|s| - 1] == DigitsOf(s[..|s| - 1]);
    }
  }

  /** toint undoes the canonical decimal exactly up to INT_MAX - 48. */
  lemma ParserInverts(v: nat)
    ensures Parsed(Natural(v)) == v
    ensures NoOverflow(Natural(v)) <==> v <= 2_147_483_599
  {
    NaturalParses(v);
    DecimalChars(Digits(Ten, v));
    ParsesIff(Natural(v));
  }

  /** Reading back what kputd prints for a non-negative int gives the int,
      without overflow, exactly when it was printed right and is not among the
      last 48. */
  lemma PrintThenParseIff(n: Word)
    requires n < 0x8000_0000
    ensures NoOverflow(Printed(n)) && Parsed(Printed(n)) == n
       <==> Rev(Ten, n) < 0x1_0000_0000 && n <= 2_147_483_599
  {
    PrintedIff(n);
    if Rev(Ten, n) < 0x1_0000_0000 {
      ParserInverts(n);
    } else {
      PrintedDigits(n);
      ParsesIff(Printed(n));
    }
  }

  lemma NineReversed(v: nat)
    requires v < 1_000_000_000
    ensures Rev(Ten, v) < 0x1_0000_0000
  {
    TenPowers();
    RevBound(Ten, v, 0, 9, 0);
  }

  /** Every number of at most nine digits is printed right and read back. */
  lemma NineDigits(n: Word)
    requires Abs(Signed(n)) < 1_000_000_000
    ensures Printed(n) == Decimal(Signed(n))
    ensures n < 0x8000_0000 ==> NoOverflow(Printed(n)) && Parsed(Printed(n)) == n
  {
    NineReversed(Abs(Signed(n)));
    PrintedIff(n);
    if n < 0x8000_0000 {
      PrintThenParseIff(n);
    }
  }

  lemma PrintedDigits(n: Word)
    requires n < 0x8000_0000
    ensures AllDigits(Printed(n))
  {
    DecimalChars(Lsd(Ten, Register(n)));
    DecimalChars(Zeros(TrailingZeros(Ten, n)));
  }

  lemma DecimalChars(ds: seq<nat>)
    requires forall i :: 0 <= i < |ds| ==> ds[i] < 10
    ensures AllDigits(Chars(ds))
  {
    forall i | 0 <= i < |ds| ensures '0' <= Chars(ds)[i] <= '9' {
      OneDigit(ds[i]);
    }
  }

  // ---- The functions of kprintf.c and usr/euclid.c

  /** The state of the reversing loop: the digits still in n, reversed onto acc,
      are the reversal of the input, and scale counts zeros while start holds. */
  ghost predicate Reversing(b: Base, input: nat, n: nat, acc: nat, scale: nat, start: bool) {
    RevOnto(b, n, acc) == Rev(b, input)
    && (start ==> acc == 0)
    && scale + (if start then TrailingZeros(b, n) else 0) == TrailingZeros(b, input)
  }

  lemma ReversingStep(b: Base, input: nat, n: nat, acc: nat, scale: nat, start: bool)
    requires n > 0 && Reversing(b, input, n, acc, scale, start)
    ensures Quot(b, n) < n
    ensures start && Rem(b, n) == 0 ==>
              Reversing(b, input, Quot(b, n), Push(b, acc, Rem(b, n)), scale + 1, true)
    ensures !(start && Rem(b, n) == 0) ==>
              Reversing(b, input, Quot(b, n), Push(b, acc, Rem(b, n)), scale, false)
  {
    QuotFacts(b, n);
  }

  /** The register rn of 32 bits holds acc modulo 2^32. */
  lemma WrapStep(rn: Word, acc: int, d: int)
    requires rn == acc % 0x1_0000_0000
    ensures (rn * 10 + d) % 0x1_0000_0000 == (acc * 10 + d) % 0x1_0000_0000
    ensures (rn * 16 + d) % 0x1_0000_0000 == (acc * 16 + d) % 0x1_0000_0000
  {
    var q := acc / 0x1_0000_0000;
    assert acc == q * 0x1_0000_0000 + rn;
    SameRemainder(rn * 10 + d, q * 10);
    SameRemainder(rn * 16 + d, q * 16);
  }

  lemma SameRemainder(x: int, q: int)
    ensures (x + q * 0x1_0000_0000) % 0x1_0000_0000 == x % 0x1_0000_0000
  {
  }

  /** out, then the digits still in the register backwards and k zeros, make whole. */
  ghost predicate Emitting(out: string, b: Base, r: nat, k: nat, whole: string) {
    out + Backwards(b, r, k) == whole
  }

  lemma EmitDigit(out: string, b: Base, r: nat, k: nat, whole: string)
    requires r > 0 && Emitting(out, b, r, k, whole)
    ensures Rem(b, r) < Size(b) <= 16 && Quot(b, r) < r
    ensures Emitting(out + [DigitChar(Rem(b, r))], b, Quot(b, r), k, whole)
  {
    QuotFacts(b, r);
    CharsConcat([Rem(b, r)], Lsd(b, Quot(b, r)));
    assert Chars([Rem(b, r)]) == [DigitChar(Rem(b, r))];
    Append(out, DigitChar(Rem(b, r)), Backwards(b, Quot(b, r), k));
  }

  lemma EmitZero(out: string, b: Base, k: nat, whole: string)
    requires k > 0 && Emitting(out, b, 0, k, whole)
    ensures Emitting(out + "0", b, 0, k - 1, whole)
  {
    assert Backwards(b, 0, k) == "0" + Backwards(b, 0, k - 1);
    Append(out, '0', Backwards(b, 0, k - 1));
  }

  lemma Append(out: string, c: char, rest: string)
    ensures out + ([c] + rest) == out + [c] + rest
  {
  }

  lemma EmitNothing(out: string, b: Base, whole: string)
    requires Emitting(out, b, 0, 0, whole)
    ensures out == whole
  {
  }

  /** The state of kputx's reversing loop */
  ghost predicate HexTracks(n0: Word, n: nat, acc: nat, rn: Word, scale: nat, start: bool) {
    Reversing(Sixteen, n0, n, acc, scale, start) && rn == acc % 0x1_0000_0000
  }

  lemma HexStep(n0: Word, n: nat, acc: nat, rn: Word, scale: nat, start: bool)
    requires n > 0 && Holds(HexTracks(n0, n, acc, rn, scale, start))
    ensures n / 16 < n
    ensures var zero := start && n % 16 == 0;
            Holds(HexTracks(n0, n / 16, acc * 16 + n % 16, (rn * 16 % 0x1_0000_0000 + n % 16) % 0x1_0000_0000,
                            if zero then scale + 1 else scale, zero))
  {
    ReversingStep(Sixteen, n0, n, acc, scale, start);
    WrapStep(rn, acc, n % 16);
    WrapTwice(rn * 16, n % 16);
  }

  lemma WrapTwice(x: nat, d: nat)
    ensures (x % 0x1_0000_0000 + d) % 0x1_0000_0000 == (x + d) % 0x1_0000_0000
  {
    SameRemainder(x % 0x1_0000_0000 + d, x / 0x1_0000_0000);
  }

  lemma HexEnd(n0: Word, acc: nat, rn: Word, scale: nat, start: bool)
    requires Holds(HexTracks(n0, 0, acc, rn, scale, start))
    ensures rn == 0 <==> n0 == 0
    ensures Emitting(if rn == 0 then "00" else "", Sixteen, rn, scale, Hex(n0))
  {
    HexFits(n0);
    assert rn == Rev(Sixteen, n0) && scale == TrailingZeros(Sixteen, n0);
    HexOutput(n0);
  }

  /** kputx: the characters sent to outf */
  method KPutX(n0: Word) returns (out: string)
    ensures out == Hex(n0)
  {
    var n: nat, rn: Word, scale: nat, start := n0, 0, 0, true;
    ghost var acc: nat := 0;
    assert Reversing(Sixteen, n0, n0, 0, 0, true);
    assert HexTracks(n0, n, acc, rn, scale, start);
    while n != 0
      invariant Holds(HexTracks(n0, n, acc, rn, scale, start))
      decreases n
    {
      HexStep(n0, n, acc, rn, scale, start);
      if start && n % 16 == 0 {
        scale := scale + 1;
      } else {
        start := false;
      }
      rn := (rn * 16 % 0x1_0000_0000 + n % 16) % 0x1_0000_0000;
      acc := acc * 16 + n % 16;
      n := n / 16;
    }
    HexEnd(n0, acc, rn, scale, start);
    out := "";
    if rn == 0 {
      out := out + "0";
      out := out + "0";
    }
    assert out == if rn == 0 then "00" else "";
    out := EmitHex(out, rn, scale, Hex(n0));
  }

  /** The last two loops of kputx */
  method EmitHex(start: string, register: Word, zeros: nat, ghost whole: string) returns (out: string)
    requires Emitting(start, Sixteen, register, zeros, whole)
    ensures out == whole
  {
    out := start;
    var rn, scale := register, zeros;
    while rn != 0
      invariant Holds(Emitting(out, Sixteen, rn, scale, whole))
      decreases rn
    {
      EmitDigit(out, Sixteen, rn, scale, whole);
      OneDigit(rn % 16);
      out := out + ["0123456789ABCDEF"[rn % 16]];
      rn := rn / 16;
    }
    while scale != 0
      invariant Holds(Emitting(out, Sixteen, 0, scale, whole))
      decreases scale
    {
      EmitZero(out, Sixteen, scale, whole);
      out := out + "0";
      scale := scale - 1;
    }
    EmitNothing(out, Sixteen, whole);
  }

  lemma HexOutput(n: nat)
    ensures Rev(Sixteen, n) == 0 <==> n == 0
    ensures n == 0 ==> Backwards(Sixteen, 0, TrailingZeros(Sixteen, 0)) == ""
    ensures n > 0 ==> Backwards(Sixteen, Rev(Sixteen, n), TrailingZeros(Sixteen, n)) == Hex(n)
  {
    if n > 0 {
      ReverseTwice(Sixteen, n);
      BackwardsDigits(Sixteen, Rev(Sixteen, n), TrailingZeros(Sixteen, n));
      RevPositive(Sixteen, n, 0);
    }
  }

  /** The loop of kputd in signed arithmetic. */
  lemma SignedStep(nn: Int32, flip: bool, acc: nat, rn: Word)
    requires nn != 0 && if flip then nn < 0 else nn > 0
    requires rn == (if flip then 0 - acc else acc) % 0x1_0000_0000
    ensures Rem(Ten, Abs(nn)) == Abs(TruncMod(nn, 10)) && Quot(Ten, Abs(nn)) == Abs(TruncDiv(nn, 10))
    ensures if flip then TruncMod(nn, 10) <= 0 && TruncDiv(nn, 10) <= 0
            else TruncMod(nn, 10) >= 0 && TruncDiv(nn, 10) >= 0
    ensures Abs(TruncDiv(nn, 10)) < Abs(nn)
    ensures var next := Push(Ten, acc, Abs(TruncMod(nn, 10)));
            (rn * 10 + TruncMod(nn, 10)) % 0x1_0000_0000 == (if flip then 0 - next else next) % 0x1_0000_0000
  {
    WrapStep(rn, if flip then 0 - acc else acc, TruncMod(nn, 10));
  }

  lemma Negation(n: Word)
    requires n >= 0x8000_0000
    ensures Signed((0xFFFF_FFFF - n + 1) % 0x1_0000_0000)
         == if n == 0x8000_0000 then 0 - Abs(Signed(n)) else Abs(Signed(n))
  {
  }

  /** The state of kputd's reversing loop */
  ghost predicate Tracks(n: Word, nn: Int32, acc: nat, rn: Word, scale: nat, start: bool) {
    var flip := n == 0x8000_0000;
    (if flip then nn <= 0 else nn >= 0)
    && Reversing(Ten, Abs(Signed(n)), Abs(nn), acc, scale, start)
    && rn == (if flip then 0 - acc else acc) % 0x1_0000_0000
  }

  lemma TracksStart(n: Word, nn: Int32)
    requires nn == if n == 0x8000_0000 then 0 - Abs(Signed(n)) else Abs(Signed(n))
    ensures Holds(Tracks(n, nn, 0, 0, 0, true))
  {
  }

  lemma TracksStep(n: Word, nn: Int32, acc: nat, rn: Word, scale: nat, start: bool)
    requires nn != 0 && Holds(Tracks(n, nn, acc, rn, scale, start))
    ensures Abs(TruncDiv(nn, 10)) < Abs(nn)
    ensures var zero := start && TruncMod(nn, 10) == 0;
            Holds(Tracks(n, TruncDiv(nn, 10), Push(Ten, acc, Abs(TruncMod(nn, 10))),
                         (rn * 10 + TruncMod(nn, 10)) % 0x1_0000_0000,
                         if zero then scale + 1 else scale, zero))
  {
    ReversingStep(Ten, Abs(Signed(n)), Abs(nn), acc, scale, start);
    SignedStep(nn, n == 0x8000_0000, acc, rn);
  }

  lemma TracksEnd(n: Word, acc: nat, rn: Word, scale: nat, start: bool)
    requires Holds(Tracks(n, 0, acc, rn, scale, start))
    ensures rn == 0 ==> Printed(n) == "0"
    ensures rn > 0 && n >= 0x8000_0000 ==> "-" + Backwards(Ten, rn, scale) == Printed(n)
    ensures rn > 0 && n < 0x8000_0000 ==> "" + Backwards(Ten, rn, scale) == Printed(n)
  {
    assert rn == Register(n) && scale == TrailingZeros(Ten, Abs(Signed(n)));
  }

  /** kputd: the characters sent to outf */
  method KPutD(n: Word) returns (out: string)
    ensures out == Printed(n)
  {
    var rn: Word, scale: nat, start, nn: Int32, s := 0, 0, true, 0, 1;
    if n / 0x8000_0000 == 1 {
      Negation(n);
      nn := Signed((0xFFFF_FFFF - n + 1) % 0x1_0000_0000);
      s := -1;
    } else {
      nn := n;
    }
    assert s == if n >= 0x8000_0000 then -1 else 1;
    ghost var acc: nat := 0;
    TracksStart(n, nn);
    while nn != 0
      invariant Holds(Tracks(n, nn, acc, rn, scale, start))
      decreases Abs(nn)
    {
      TracksStep(n, nn, acc, rn, scale, start);
      if start && TruncMod(nn, 10) == 0 {
        scale := scale + 1;
      } else {
        start := false;
      }
      rn := (rn * 10 + TruncMod(nn, 10)) % 0x1_0000_0000;
      acc := Push(Ten, acc, Abs(TruncMod(nn, 10)));
      nn := TruncDiv(nn, 10);
    }
    TracksEnd(n, acc, rn, scale, start);
    out := "";
    if rn == 0 {
      out := out + "0";
      return;
    }
    if s == -1 {
      out := out + "-";
    }
    assert out == if n >= 0x8000_0000 then "-" else "";
    out := EmitDecimal(out, rn, scale);
  }

  /** The last two loops of kputd */
  method EmitDecimal(start: string, register: Word, zeros: nat) returns (out: string)
    ensures out == start + Backwards(Ten, register, zeros)
  {
    out := start;
    var rn, scale := register, zeros;
    ghost var whole := start + Backwards(Ten, rn, scale);
    assert Emitting(out, Ten, rn, scale, whole);
    while rn != 0
      invariant Holds(Emitting(out, Ten, rn, scale, whole))
      decreases rn
    {
      EmitDigit(out, Ten, rn, scale, whole);
      OneDigit(rn % 10);
      out := out + [('0' as int + rn % 10) as char];
      rn := rn / 10;
    }
    while scale != 0
      invariant Holds(Emitting(out, Ten, 0, scale, whole))
      decreases scale
    {
      EmitZero(out, Ten, scale, whole);
      out := out + "0";
      scale := scale - 1;
    }
    EmitNothing(out, Ten, whole);
  }

  /** toint, on the characters before the terminating NUL; C leaves overflow
      undefined. */
  method ToInt(s: string) returns (n: Int32)
    requires NoOverflow(s)
    ensures n == Parsed(s)
  {
    n := 0;
    var i := 0;
    while i < |s|
      invariant 0 <= i <= |s|
      invariant n == Parsed(s[..i])
    {
      NoOverflowPrefix(s, i + 1);
      assert s[..i + 1][..i] == s[..i];
      var m: Int32 := n * 10;
      m := m + Code(s[i]);
      n := m - 48;
      i := i + 1;
    }
    assert s[..i] == s;
  }

  lemma {:induction false} NoOverflowPrefix(s: string, i: nat)
    requires NoOverflow(s) && i <= |s|
    ensures NoOverflow(s[..i])
  {
    if i < |s| {
      NoOverflowPrefix(s[..|s| - 1], i);
      assert s[..|s| - 1][..i] == s[..i];
    } else {
      assert s[..i] == s;
    }
  }
}
