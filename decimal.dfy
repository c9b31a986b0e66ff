/**
 * Decimal digits and Rust's 64-bit signed integers: `str::parse::<i64>`,
 * integer `Display`, the zero padding of `{:0w}` and truncating division.
 */
module Decimal {
  import opened Wrappers

  const I64Min: int := -0x8000_0000_0000_0000
  const I64Max: int := 0x7fff_ffff_ffff_ffff

  predicate IsI64(n: int) {
    I64Min <= n <= I64Max
  }

  predicate IsDigit(c: char) {
    '0' <= c <= '9'
  }

  function DigitValue(c: char): (v: nat)
    requires IsDigit(c)
    ensures v < 10
  {
    (c as int) - ('0' as int)
  }

  function DigitChar(v: nat): (c: char)
    requires v < 10
    ensures IsDigit(c) && DigitValue(c) == v
  {
    (('0' as int) + v) as char
  }

  predicate AllDigits(s: string) {
    forall i :: 0 <= i < |s| ==> IsDigit(s[i])
  }

  /** The number a string of decimal digits spells, most significant digit first. */
  function DigitsValue(s: string): nat
    requires AllDigits(s)
  {
    if s == [] then 0 else DigitsValue(s[..|s| - 1]) * 10 + DigitValue(s[|s| - 1])
  }

  /** The shortest decimal spelling of n. */
  function NatDigits(n: nat): (s: string)
    ensures 1 <= |s| && AllDigits(s) && DigitsValue(s) == n
    ensures n < 10 <==> |s| == 1
    ensures n > 0 ==> s[0] != '0'
  {
    if n < 10 then [DigitChar(n)]
    else
      var s := NatDigits(n / 10) + [DigitChar(n % 10)];
      assert s[..|s| - 1] == NatDigits(n / 10);
      s
  }

  /** A number below 10^k has at most k digits. */
  lemma {:induction false} NatDigitsAtMost(n: nat, k: nat, bound: nat)
    requires 1 <= k && bound == Pow10(k) && n < bound
    ensures |NatDigits(n)| <= k
  {
    if n >= 10 {
      assert Pow10(1) == 10;
      assert Pow10(k) == 10 * Pow10(k - 1);
      NatDigitsAtMost(n / 10, k - 1, Pow10(k - 1));
    }
  }

  function Pow10(k: nat): (p: nat)
    ensures p >= 1
  {
    if k == 0 then 1 else 10 * Pow10(k - 1)
  }

  /** A string of k digits spells a number below 10^k. */
  lemma {:induction false} DigitsValueBound(s: string)
    requires AllDigits(s)
    ensures DigitsValue(s) < Pow10(|s|)
  {
    if s != [] {
      DigitsValueBound(s[..|s| - 1]);
    }
  }

  /** s padded on the left with '0' to at least w characters, as Rust's `{:0w}` pads. */
  function ZeroPad(s: string, w: nat): (r: string)
    ensures |r| == if |s| < w then w else |s|
    ensures r[|r| - |s|..] == s
    ensures forall i :: 0 <= i < |r| - |s| ==> r[i] == '0'
  {
    if |s| >= w then s
    else
      var z := seq(w - |s|, _ => '0');
      assert (z + s)[|z|..] == s;
      z + s
  }

  /** Leading zeros do not change the value of a digit string. */
  lemma {:induction false} DigitsValueLeadingZeros(z: string, s: string)
    requires forall i :: 0 <= i < |z| ==> z[i] == '0'
    requires AllDigits(s)
    ensures AllDigits(z + s) && DigitsValue(z + s) == DigitsValue(s)
  {
    if s == [] {
      assert z + s == z;
      if z != [] {
        DigitsValueLeadingZeros(z[..|z| - 1], []);
        assert z[..|z| - 1] + [] == z[..|z| - 1];
      }
    } else {
      var t := s[..|s| - 1];
      DigitsValueLeadingZeros(z, t);
      assert (z + s)[..|z + s| - 1] == z + t;
    }
  }

  /** Zero padding keeps a digit string's value. */
  lemma ZeroPadValue(s: string, w: nat)
    requires AllDigits(s)
    ensures AllDigits(ZeroPad(s, w)) && DigitsValue(ZeroPad(s, w)) == DigitsValue(s)
  {
    var r := ZeroPad(s, w);
    var z := r[..|r| - |s|];
    assert r == z + s;
    DigitsValueLeadingZeros(z, s);
  }

  /** The digits of n, zero-padded to w characters: `format!("{:0w}", n)`. */
  function PaddedDigits(n: nat, w: nat): (s: string)
    ensures AllDigits(s) && DigitsValue(s) == n && |s| >= w
    ensures 1 <= w && n < Pow10(w) ==> |s| == w
    ensures |s| > w && n > 0 ==> s[0] != '0'
  {
    ZeroPadValue(NatDigits(n), w);
    assert 1 <= w && n < Pow10(w) ==> |NatDigits(n)| <= w by {
      if 1 <= w && n < Pow10(w) {
        NatDigitsAtMost(n, w, Pow10(w));
      }
    }
    ZeroPad(NatDigits(n), w)
  }

  /** Rust's `str::parse::<i64>`: an optional '+' or '-', then one or more ASCII digits, within the i64 range. */
  function ParseI64(s: string): (r: Option<int>)
    ensures r.Some? ==> IsI64(r.value)
    ensures r.Some? ==> |s| >= 1 && AllDigits(s[1..])
    ensures r.Some? ==> IsDigit(s[0]) || ((s[0] == '+' || s[0] == '-') && |s| >= 2)
    ensures r.Some? ==> r.value == SignedValue(s)
    ensures r.Some? && r.value < 0 ==> s[0] == '-'
    ensures (&& |s| >= 1 && AllDigits(s[1..])
             && (IsDigit(s[0]) || ((s[0] == '+' || s[0] == '-') && |s| >= 2))
             && IsI64(SignedValue(s)))
      ==> r == Some(SignedValue(s))
  {
    if |s| == 0 then None
    else if (s[0] == '+' || s[0] == '-') && |s| == 1 then None
    else
      var digits := if s[0] == '+' || s[0] == '-' then s[1..] else s;
      if !AllDigits(digits) then None
      else
        var v: int := if s[0] == '-' then -(DigitsValue(digits) as int) else DigitsValue(digits);
        if IsI64(v) then Some(v) else None
  }

  /** The value of an optional sign followed by digits: the digits' value, negated after a '-'. */
  function SignedValue(s: string): int
    requires |s| >= 1 && AllDigits(s[1..]) && (IsDigit(s[0]) || s[0] == '+' || s[0] == '-')
  {
    if s[0] == '-' then -(DigitsValue(s[1..]) as int)
    else if s[0] == '+' then DigitsValue(s[1..])
    else
      assert forall i :: 1 <= i < |s| ==> s[i] == s[1..][i - 1];
      DigitsValue(s)
  }

  /**
   * Rust accepts every spelling of an i64 n: an optional sign ('-' required when n < 0, and allowed
   * for zero), any number of leading zeros, then the digits of |n|.
   */
  lemma ParseI64OfSpelling(sign: string, zeros: string, n: int)
    requires IsI64(n)
    requires forall i :: 0 <= i < |zeros| ==> zeros[i] == '0'
    requires if n < 0 then sign == "-" else sign == "" || sign == "+" || (n == 0 && sign == "-")
    ensures ParseI64(sign + zeros + NatDigits(if n < 0 then -n else n)) == Some(n)
  {
    var magnitude: nat := if n < 0 then -n else n;
    var digits := zeros + NatDigits(magnitude);
    DigitsValueLeadingZeros(zeros, NatDigits(magnitude));
    assert sign + zeros + NatDigits(magnitude) == sign + digits;
    ParseI64OfDigits(sign, digits, n);
  }

  /** A sign, then digits whose signed value is the i64 n, parses to n. */
  lemma ParseI64OfDigits(sign: string, digits: string, n: int)
    requires sign == "" || sign == "+" || sign == "-"
    requires |digits| >= 1 && AllDigits(digits) && IsI64(n)
    requires n == if sign == "-" then -(DigitsValue(digits) as int) else DigitsValue(digits)
    ensures ParseI64(sign + digits) == Some(n)
  {
    var s := sign + digits;
    if sign == "" {
      assert s == digits;
    } else {
      assert s[0] == sign[0] && s[1..] == digits;
    }
  }

  /** Rust's `Display` for an integer: '-' for a negative value, then the shortest decimal digits. */
  function IntToString(n: int): (s: string)
    ensures |s| >= 1 && (n < 0 <==> s[0] == '-')
  {
    if n < 0 then "-" + NatDigits(-n) else NatDigits(n)
  }

  /** Every i64 printed in decimal parses back to itself. */
  lemma ParseI64OfIntToString(n: int)
    requires IsI64(n)
    ensures ParseI64(IntToString(n)) == Some(n)
  {
    var s := IntToString(n);
    if n < 0 {
      assert s[1..] == NatDigits(-n);
    }
  }

  /** A character other than a digit anywhere after the first position makes the i64 parse fail. */
  lemma ParseI64RejectsNonDigit(s: string, i: int)
    requires 1 <= i < |s| && !IsDigit(s[i])
    ensures ParseI64(s) == None
  {
    if s[0] == '+' || s[0] == '-' {
      assert s[1..][i - 1] == s[i];
    }
  }

  /** Rust's `/` on integers for a positive divisor: the quotient is truncated toward zero. */
  function TruncDiv(a: int, b: int): (q: int)
    requires b > 0
    ensures a >= 0 ==> 0 <= a - b * q < b
    ensures a < 0 ==> -b < a - b * q <= 0
  {
    if a >= 0 then a / b else -((-a) / b)
  }
}
