/**
 * The JavaScript number-to-text operations the clock displays are built from:
 * `n.toString()` on integers, `padStart(2, '0')`, and the truncating `%`.
 * `ParseNat` reads a run of decimal digits back; it is the partner the
 * round-trip lemmas of the display formats are stated with.
 */
module Text {

  predicate IsDigit(c: char)
  {
    '0' <= c <= '9'
  }

  predicate AllDigits(s: string)
  {
    forall i :: 0 <= i < |s| ==> IsDigit(s[i])
  }

  function DigitChar(d: int): (c: char)
    requires 0 <= d < 10
    ensures IsDigit(c)
  {
    (('0' as int) + d) as char
  }

  function DigitValue(c: char): int
  {
    (c as int) - ('0' as int)
  }

  /** `n.toString()` for a non-negative integer: no leading zeros. */
  function NatToString(n: nat): (s: string)
    ensures |s| >= 1 && AllDigits(s)
    ensures |s| == 1 <==> n < 10
    ensures s[0] == '0' <==> n == 0
    decreases n
  {
    if n < 10 then [DigitChar(n)] else NatToString(n / 10) + [DigitChar(n % 10)]
  }

  /** `n.toString()` for any integer: a minus sign before the digits of a negative number. */
  function IntToString(n: int): string
  {
    if n < 0 then "-" + NatToString(-n) else NatToString(n)
  }

  /** The value of a string of decimal digits, read left to right. */
  function ParseNat(s: string): int
  {
    if s == [] then 0 else ParseNat(s[..|s| - 1]) * 10 + DigitValue(s[|s| - 1])
  }

  lemma {:induction false} ParseNatToString(n: nat)
    ensures ParseNat(NatToString(n)) == n
    decreases n
  {
    if n >= 10 {
      var prefix := NatToString(n / 10);
      var s := prefix + [DigitChar(n % 10)];
      assert s[..|s| - 1] == prefix;
      ParseNatToString(n / 10);
    }
  }

  /** `s.padStart(2, '0')`. */
  function PadStart2(s: string): string
  {
    if |s| >= 2 then s else if |s| == 1 then "0" + s else "00"
  }

  lemma PadStart2Digits(n: int)
    requires 0 <= n < 100
    ensures var r := PadStart2(IntToString(n)); |r| == 2 && AllDigits(r) && ParseNat(r) == n
  {
    var r := PadStart2(IntToString(n));
    if n < 10 {
      assert r == ['0', DigitChar(n)];
      assert r[..1] == ['0'] && r[..1][..0] == [];
      assert ParseNat(r[..1]) == 0;
    } else {
      ParseNatToString(n);
    }
  }

  /** A two-digit field of a clock: `n.toString().padStart(2, '0')`. */
  function Pad2(n: int): (r: string)
    ensures 0 <= n < 100 ==> |r| == 2 && AllDigits(r) && ParseNat(r) == n
  {
    if 0 <= n < 100 then PadStart2Digits(n); PadStart2(IntToString(n))
    else PadStart2(IntToString(n))
  }

  /** A positive factor keeps the sign, and at least the size, of a non-zero integer. */
  lemma {:induction false} MulSign(d: int, x: int)
    requires d > 0
    ensures x >= 1 ==> d * x >= d
    ensures x <= -1 ==> d * x <= -d
    decreases if x < 0 then -x else x
  {
    if x > 1 {
      MulSign(d, x - 1);
      assert d * x == d * (x - 1) + d;
    } else if x < -1 {
      MulSign(d, x + 1);
      assert d * x == d * (x + 1) - d;
    }
  }

  /** Euclidean division by a positive divisor is the quotient its bounds determine. */
  lemma DivUnique(n: int, d: int, q: int)
    requires d > 0 && d * q <= n < d * q + d
    ensures n / d == q
  {
    var q' := n / d;
    assert n == d * q' + n % d;
    MulSign(d, q' - q);
    assert d * (q' - q) == d * q' - d * q;
  }

  /** A multiple of `b` leaves no remainder. */
  lemma MultipleRem(b: int, q: int)
    requires b > 0
    ensures (b * q) % b == 0
  {
    DivUnique(b * q, b, q);
  }

  /**
   * JavaScript's `a % b` for a positive `b`: the remainder takes the sign of
   * `a`, is smaller than `b` in size, and differs from `a` by a multiple of `b`.
   */
  function JsRem(a: int, b: int): (r: int)
    requires b > 0
    ensures a >= 0 ==> r == a % b
    ensures a < 0 ==> -b < r <= 0
    ensures (a - r) % b == 0
  {
    if a >= 0 then
      MultipleRem(b, a / b);
      assert a - a % b == b * (a / b);
      a % b
    else
      var q := (-a) / b;
      MultipleRem(b, -q);
      assert -a == b * q + (-a) % b;
      assert a - -((-a) % b) == b * -q;
      -((-a) % b)
  }
}
