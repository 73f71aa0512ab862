/** Decimal integers as text: `strconv`'s formatting and parsing. */
module Numbers {
  import opened Basics

  function Digit(d: nat): char
    requires d < 10
  {
    "0123456789"[d]
  }

  function Decimal(n: nat): string {
    if n < 10 then [Digit(n)] else Decimal(n / 10) + [Digit(n % 10)]
  }

  predicate IsDigit(c: char) { '0' <= c <= '9' }

  function DigitValue(c: char): int { c as int - '0' as int }

  function NumberOf(s: string): int {
    if s == "" then 0 else NumberOf(s[..|s| - 1]) * 10 + DigitValue(s[|s| - 1])
  }

  predicate AllDigits(s: string) {
    s != "" && forall c :: c in s ==> IsDigit(c)
  }

  /** A decimal number with an optional sign. */
  function Atoi(s: string): Option<int> {
    if AllDigits(s) then Some(NumberOf(s))
    else if s != "" && s[0] == '-' && AllDigits(s[1..]) then Some(-NumberOf(s[1..]))
    else if s != "" && s[0] == '+' && AllDigits(s[1..]) then Some(NumberOf(s[1..]))
    else None
  }

  lemma {:induction false} DecimalReadsBack(n: nat)
    ensures AllDigits(Decimal(n)) && NumberOf(Decimal(n)) == n
  {
    var s := Decimal(n);
    if n < 10 {
      DigitReadsBack(n);
      assert s[..0] == "";
    } else {
      DecimalReadsBack(n / 10);
      DigitReadsBack(n % 10);
      assert s[..|s| - 1] == Decimal(n / 10);
    }
  }

  lemma DigitReadsBack(d: nat)
    requires d < 10
    ensures IsDigit(Digit(d)) && DigitValue(Digit(d)) == d
  {
    var digits := "0123456789";
    assert digits[0] == '0' && digits[1] == '1' && digits[2] == '2' && digits[3] == '3' && digits[4] == '4';
    assert digits[5] == '5' && digits[6] == '6' && digits[7] == '7' && digits[8] == '8' && digits[9] == '9';
  }

  function Format(n: int): string {
    if n < 0 then ['-'] + Decimal(-n) else Decimal(n)
  }

  lemma SignedReadsBack(digits: string)
    requires AllDigits(digits)
    ensures Atoi(['-'] + digits) == Some(-NumberOf(digits))
  {
    var s := ['-'] + digits;
    assert s[0] in s && s[1..] == digits;
  }

  lemma FormatReadsBack(n: int)
    ensures Atoi(Format(n)) == Some(n)
  {
    if n < 0 {
      DecimalReadsBack(-n);
      SignedReadsBack(Decimal(-n));
    } else {
      DecimalReadsBack(n);
    }
  }

  function Power(k: nat): nat {
    if k == 0 then 1 else 10 * Power(k - 1)
  }

  lemma {:induction false} DecimalLength(n: nat, k: nat)
    requires n < Power(k) && k > 0
    ensures |Decimal(n)| <= k
  {
    if n >= 10 { DecimalLength(n / 10, k - 1); }
  }

  /** The digits of a 64-bit number. */
  lemma DecimalShort(n: nat)
    requires n < 0x1_0000_0000_0000_0000
    ensures |Decimal(n)| <= 20
  {
    assert Power(5) == 100000;
    assert Power(10) == 100000 * Power(5);
    assert Power(15) == 100000 * Power(10);
    assert Power(20) == 100000 * Power(15);
    DecimalLength(n, 20);
  }

  /** A signed 64-bit integer. */
  predicate InRange(n: int) {
    -0x8000_0000_0000_0000 <= n < 0x8000_0000_0000_0000
  }

  /** Two's-complement wrap-around of a sum of two such integers. */
  function Wrap(n: int): int {
    if n >= 0x8000_0000_0000_0000 then n - 0x1_0000_0000_0000_0000
    else if n < -0x8000_0000_0000_0000 then n + 0x1_0000_0000_0000_0000
    else n
  }

  type Int64 = n: int | InRange(n)

  function ParseInt(s: string): Option<Int64> {
    if Atoi(s).Some? && InRange(Atoi(s).value) then Some(Atoi(s).value) else None
  }

  /** The 64-bit integer any integer comes out as. */
  function Residue(n: int): Int64 {
    (n + 0x8000_0000_0000_0000) % 0x1_0000_0000_0000_0000 - 0x8000_0000_0000_0000
  }

  lemma ModIs(x: int, q: int, r: int)
    requires x == q * 0x1_0000_0000_0000_0000 + r && 0 <= r < 0x1_0000_0000_0000_0000
    ensures x % 0x1_0000_0000_0000_0000 == r
  {
  }

  lemma WrapIsResidue(a: Int64, b: Int64)
    ensures Wrap(a + b) == Residue(a + b)
  {
    var n, h, m := a + b, 0x8000_0000_0000_0000, 0x1_0000_0000_0000_0000;
    assert InRange(a) && InRange(b);
    if n >= h {
      ModIs(n + h, 1, n + h - m);
    } else if n < -h {
      ModIs(n + h, -1, n + h + m);
    } else {
      ModIs(n + h, 0, n + h);
    }
  }

  lemma ModAdds(x: int, b: int)
    ensures (x % 0x1_0000_0000_0000_0000 + b) % 0x1_0000_0000_0000_0000 == (x + b) % 0x1_0000_0000_0000_0000
  {
  }

  /** Wrapping early or late makes no difference to a sum. */
  lemma ResidueAdds(a: int, b: int)
    ensures Residue(Residue(a) + b) == Residue(a + b)
  {
    var h := 0x8000_0000_0000_0000;
    ModAdds(a + h, b);
    assert Residue(a) + b + h == (a + h) % 0x1_0000_0000_0000_0000 + b;
    assert a + b + h == a + h + b;
  }

  /** A formatted 64-bit integer parses as itself. */
  /** The ends of the range, and one step past each. */
  lemma RangeEnds()
    ensures InRange(9223372036854775807) && !InRange(9223372036854775808)
    ensures InRange(-9223372036854775808) && !InRange(-9223372036854775809)
    ensures Wrap(9223372036854775808) == -9223372036854775808 == Residue(9223372036854775808)
    ensures Wrap(-9223372036854775809) == 9223372036854775807 == Residue(-9223372036854775809)
    ensures Successor(0) == 1 && Successor(18446744073709551615) == 0
    ensures ParseUint("0") == Some(0) && ParseInt("-1") == Some(-1) && ParseInt("+1") == Some(1)
  {
    assert "0"[..0] == "" && "1"[..0] == "" && "-1"[1..] == "1" && "+1"[1..] == "1";
    assert NumberOf("0") == 0 && NumberOf("1") == 1;
    assert AllDigits("0") && AllDigits("1") && !AllDigits("-1") && !AllDigits("+1") by {
      assert '-' in "-1" && '+' in "+1";
    }
  }

  lemma FormatParses(n: Int64)
    ensures ParseInt(Format(n)) == Some(n)
  {
    FormatReadsBack(n);
  }

  /** An unsigned 64-bit integer. */
  type Uint64 = n: nat | n < 0x1_0000_0000_0000_0000

  function Successor(n: Uint64): Uint64 {
    (n + 1) % 0x1_0000_0000_0000_0000
  }

  function ParseUint(s: string): Option<Uint64> {
    if AllDigits(s) && 0 <= NumberOf(s) < 0x1_0000_0000_0000_0000 then Some(NumberOf(s)) else None
  }
}
