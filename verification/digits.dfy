/**
 * Decimal text: the digit strings `Long.toString` prints, zero padding, and
 * `Integer.toString` / `Integer.parseInt` for the `int` fields of a record.
 */
module Digits {
  import opened Wrappers
  import opened Failures

  /** Java's `int`. */
  type Int32 = x: int | -0x8000_0000 <= x < 0x8000_0000

  predicate IsDigit(c: char) {
    '0' <= c <= '9'
  }

  predicate AllDigits(s: string) {
    forall i :: 0 <= i < |s| ==> IsDigit(s[i])
  }

  function DigitChar(n: nat): (c: char)
    requires n < 10
    ensures IsDigit(c)
  {
    ('0' as int + n) as char
  }

  function DigitValue(c: char): (n: nat)
    requires IsDigit(c)
    ensures n < 10 && DigitChar(n) == c
  {
    c as int - '0' as int
  }

  function Pow10(k: nat): nat {
    if k == 0 then 1 else 10 * Pow10(k - 1)
  }

  /** The shortest decimal text of `n`: no leading zero except for `0` itself. */
  function NatText(n: nat): (s: string)
    ensures 1 <= |s| && AllDigits(s)
    ensures s[0] == '0' <==> n == 0
    decreases n
  {
    if n < 10 then [DigitChar(n)] else NatText(n / 10) + [DigitChar(n % 10)]
  }

  /** The value of a digit string, most significant digit first; the empty string reads as 0. */
  function TextValue(s: string): nat
    requires AllDigits(s)
  {
    if |s| == 0 then 0 else 10 * TextValue(s[..|s| - 1]) + DigitValue(s[|s| - 1])
  }

  lemma {:induction false} NatTextRoundTrip(n: nat)
    ensures TextValue(NatText(n)) == n
    decreases n
  {
    if n >= 10 {
      var s := NatText(n);
      assert s[..|s| - 1] == NatText(n / 10);
      NatTextRoundTrip(n / 10);
    }
  }

  /** `n` needs at most `k` digits exactly when it is below `10^k`. */
  lemma {:induction false} NatTextLength(n: nat, k: nat)
    requires 1 <= k
    ensures |NatText(n)| <= k <==> n < Pow10(k)
    decreases n
  {
    if n >= 10 {
      if k == 1 {
        assert |NatText(n)| >= 2;
      } else {
        NatTextLength(n / 10, k - 1);
      }
    } else {
      Pow10Positive(k);
    }
  }

  lemma {:induction false} Pow10Positive(k: nat)
    requires 1 <= k
    ensures Pow10(k) >= 10
  {
    if k > 1 {
      Pow10Positive(k - 1);
    }
  }

  function Zeros(k: nat): (s: string)
    ensures |s| == k && AllDigits(s)
    ensures forall i :: 0 <= i < k ==> s[i] == '0'
  {
    if k == 0 then [] else ['0'] + Zeros(k - 1)
  }

  /** Left-pads `s` with zeros to at least `width` characters, as a minimum field width does. */
  function PadLeft(s: string, width: nat): (r: string)
    ensures |r| == if |s| >= width then |s| else width
    ensures r[|r| - |s|..] == s
    ensures forall i :: 0 <= i < |r| - |s| ==> r[i] == '0'
  {
    if |s| >= width then s else Zeros(width - |s|) + s
  }

  /** Leading zeros do not change the value of a digit string. */
  lemma {:induction false} LeadingZeros(z: string, s: string)
    requires AllDigits(s)
    requires forall i :: 0 <= i < |z| ==> z[i] == '0'
    ensures AllDigits(z + s) && TextValue(z + s) == TextValue(s)
    decreases |s|
  {
    if |s| == 0 {
      assert z + s == z;
      AllZeros(z);
    } else {
      assert (z + s)[..|z + s| - 1] == z + s[..|s| - 1];
      LeadingZeros(z, s[..|s| - 1]);
    }
  }

  lemma {:induction false} AllZeros(z: string)
    requires forall i :: 0 <= i < |z| ==> z[i] == '0'
    ensures AllDigits(z) && TextValue(z) == 0
    decreases |z|
  {
    if |z| > 0 {
      AllZeros(z[..|z| - 1]);
    }
  }

  /** Padding the decimal text of `n` and reading it back gives `n`. */
  lemma PaddedRoundTrip(n: nat, width: nat)
    ensures AllDigits(PadLeft(NatText(n), width))
    ensures TextValue(PadLeft(NatText(n), width)) == n
  {
    var s := NatText(n);
    var r := PadLeft(s, width);
    var z := r[..|r| - |s|];
    assert r == z + s;
    LeadingZeros(z, s);
    NatTextRoundTrip(n);
  }

  // ---------------------------------------------------------------------------
  // `Integer.toString` and `Integer.parseInt`
  // ---------------------------------------------------------------------------

  /** `Integer.toString`: a minus sign for negative values, then the digits of the magnitude. */
  function IntText(n: int): string {
    if n < 0 then "-" + NatText(-n) else NatText(n)
  }

  /**
   * `Integer.parseInt` on ASCII digits: an optional sign, at least one digit, and a value
   * that fits in an `int`; anything else is a `NumberFormatException`.
   */
  function ParseInt(s: string): (r: Result<Int32, Failure>)
    ensures r.Err? ==> r.error == NumberFormat(s)
    ensures r.Ok? ==> |s| >= 1 && (s[0] == '-' || s[0] == '+' || IsDigit(s[0]))
    ensures r.Ok? && IsDigit(s[0]) ==> AllDigits(s) && r.value == TextValue(s)
    ensures r.Ok? && s[0] == '-' ==> |s| >= 2 && AllDigits(s[1..]) && r.value == -(TextValue(s[1..]) as int)
    ensures r.Ok? && s[0] == '+' ==> |s| >= 2 && AllDigits(s[1..]) && r.value == TextValue(s[1..])
    ensures 1 <= |s| && AllDigits(s) && TextValue(s) < 0x8000_0000 ==> r == Ok(TextValue(s))
    ensures 2 <= |s| && s[0] == '-' && AllDigits(s[1..]) && TextValue(s[1..]) <= 0x8000_0000 ==>
              r == Ok(-(TextValue(s[1..]) as int))
    ensures 2 <= |s| && s[0] == '+' && AllDigits(s[1..]) && TextValue(s[1..]) < 0x8000_0000 ==>
              r == Ok(TextValue(s[1..]))
  {
    if |s| == 0 then Err(NumberFormat(s))
    else
      var negative := s[0] == '-';
      var digits := if s[0] == '-' || s[0] == '+' then s[1..] else s;
      if |digits| == 0 || !AllDigits(digits) then Err(NumberFormat(s))
      else
        var value: int := if negative then -(TextValue(digits) as int) else TextValue(digits);
        if -0x8000_0000 <= value < 0x8000_0000 then Ok(value) else Err(NumberFormat(s))
  }

  /** `Integer.parseInt(Integer.toString(n)) == n` for every `int`. */
  lemma IntTextRoundTrip(n: Int32)
    ensures ParseInt(IntText(n)) == Ok(n)
  {
    var s := IntText(n);
    if n < 0 {
      var m: nat := -(n as int);
      assert s[0] == '-' && s[1..] == NatText(m);
      NatTextRoundTrip(m);
    } else {
      NatTextRoundTrip(n);
      assert s[0] != '-' && s[0] != '+';
    }
  }
}
