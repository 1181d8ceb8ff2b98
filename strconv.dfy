/**
 * Bytes, 64-bit signed integers and the two conversions of Go's strconv
 * package that the matcher relies on: FormatInt(v, 10) and ParseInt(s, 10, 64).
 */
module Strconv {
  import opened Wrappers

  type Byte = b: int | 0 <= b < 256

  const MinInt64: int := -0x8000_0000_0000_0000
  const MaxInt64: int := 0x7FFF_FFFF_FFFF_FFFF

  type Int64 = x: int | MinInt64 <= x <= MaxInt64

  const Zero: Byte := 48   // '0'
  const Plus: Byte := 43   // '+'
  const Minus: Byte := 45  // '-'

  predicate IsDigit(b: Byte) { Zero <= b <= Zero + 9 }

  predicate IsNonZeroDigit(b: Byte) { Zero < b <= Zero + 9 }

  predicate AllDigits(s: seq<Byte>) { forall i :: 0 <= i < |s| ==> IsDigit(s[i]) }

  /** The decimal digits of n, most significant first, without leading zeros. */
  function DigitsOf(n: nat): (s: seq<Byte>)
    ensures |s| >= 1 && AllDigits(s)
    ensures s[0] == Zero <==> n == 0
  {
    if n < 10 then [Zero + n] else DigitsOf(n / 10) + [Zero + n % 10]
  }

  /** The value of a run of decimal digits, most significant first. */
  function ValueOf(s: seq<Byte>): nat
    requires AllDigits(s)
  {
    if s == [] then 0 else ValueOf(s[..|s| - 1]) * 10 + (s[|s| - 1] - Zero)
  }

  /** strconv.FormatInt(v, 10): a '-' for negative values, then the digits of |v|. */
  function FormatInt(v: int): seq<Byte>
  {
    if v < 0 then [Minus] + DigitsOf(-v) else DigitsOf(v)
  }

  /**
   * strconv.ParseInt(s, 10, 64): an optional sign followed by at least one
   * decimal digit, whose value must fit in an int64. Every error (empty
   * input, a stray byte, overflow) is None.
   */
  function ParseInt(s: seq<Byte>): (r: Option<Int64>)
    ensures r.Some? ==> |s| > 0
    ensures r.Some? && r.value < 0 ==> s[0] == Minus
    ensures r.Some? && s[0] == Minus ==> r.value <= 0
  {
    if |s| == 0 then None
    else
      var negative := s[0] == Minus;
      var body := if s[0] == Minus || s[0] == Plus then s[1..] else s;
      if |body| == 0 || !AllDigits(body) then None
      else
        var n: int := ValueOf(body);
        if negative then (if n <= -MinInt64 then Some(-n) else None)
        else if n <= MaxInt64 then Some(n)
        else None
  }

  lemma {:induction false} ValueOfDigitsOf(n: nat)
    ensures ValueOf(DigitsOf(n)) == n
  {
    if n >= 10 {
      var s := DigitsOf(n);
      assert s[..|s| - 1] == DigitsOf(n / 10);
      ValueOfDigitsOf(n / 10);
    }
  }

  /** FormatInt and ParseInt are inverse on the whole int64 range. */
  lemma ParseFormatRoundTrip(v: Int64)
    ensures ParseInt(FormatInt(v)) == Some(v)
  {
    var w: int := v;
    if w < 0 {
      var t := FormatInt(w);
      assert t[0] == Minus && t[1..] == DigitsOf(-w);
      ValueOfDigitsOf(-w);
    } else {
      assert DigitsOf(w)[0] != Minus && DigitsOf(w)[0] != Plus;
      ValueOfDigitsOf(w);
    }
  }

  /** ParseInt of an unsigned digit run: its value when that fits in an int64, an error otherwise. */
  lemma ParseIntOfDigits(s: seq<Byte>)
    requires |s| > 0 && AllDigits(s)
    ensures ParseInt(s) == if ValueOf(s) <= MaxInt64 then Some(ValueOf(s) as Int64) else None
  {
    assert IsDigit(s[0]);
  }

  /** The text of FormatInt starts with '-' exactly for negative values and has no leading zero. */
  lemma FormatIntShape(v: int)
    ensures |FormatInt(v)| >= 1
    ensures FormatInt(v)[0] == Minus <==> v < 0
    ensures v >= 0 ==> AllDigits(FormatInt(v)) && (FormatInt(v)[0] == Zero <==> v == 0)
    ensures v < 0 ==> AllDigits(FormatInt(v)[1..]) && FormatInt(v)[1] != Zero
  {
    if v < 0 {
      assert FormatInt(v)[1..] == DigitsOf(-v);
    }
  }

  /** Larger numbers never have fewer digits. */
  lemma {:induction false} DigitsOfLengthMonotone(a: nat, b: nat)
    requires a <= b
    ensures |DigitsOf(a)| <= |DigitsOf(b)|
  {
    if a >= 10 {
      DigitsOfLengthMonotone(a / 10, b / 10);
    }
  }

  /** Two digit runs of the same length and value are the same run. */
  lemma {:induction false} ValueOfInjective(s: seq<Byte>, t: seq<Byte>)
    requires AllDigits(s) && AllDigits(t) && |s| == |t|
    requires ValueOf(s) == ValueOf(t)
    ensures s == t
  {
    if s != [] {
      var n := |s| - 1;
      ValueOfInjective(s[..n], t[..n]);
      assert s == s[..n] + [s[n]] && t == t[..n] + [t[n]];
    }
  }

  /**
   * Among digit runs of one length, a run whose value lies between two others
   * shares every leading digit that those two share.
   */
  lemma {:induction false} SharedPrefixBetween(s: seq<Byte>, v: seq<Byte>, t: seq<Byte>, k: nat)
    requires AllDigits(s) && AllDigits(v) && AllDigits(t)
    requires |s| == |v| == |t| && k <= |s|
    requires ValueOf(s) <= ValueOf(v) <= ValueOf(t)
    requires s[..k] == t[..k]
    ensures v[..k] == s[..k]
  {
    var n := |s|;
    if k == n {
      assert s == t;
      ValueOfInjective(s, v);
    } else {
      SharedPrefixBetween(s[..n - 1], v[..n - 1], t[..n - 1], k);
      assert s[..n - 1][..k] == s[..k];
      assert v[..n - 1][..k] == v[..k];
      assert t[..n - 1][..k] == t[..k];
    }
  }

  function Pow10(k: nat): (r: nat)
    ensures r >= 1
  {
    if k == 0 then 1 else 10 * Pow10(k - 1)
  }

  /** A number has k digits exactly when it lies in [10^(k-1), 10^k). */
  lemma {:induction false} DigitsLength(n: nat, k: nat)
    requires k >= 1 && Pow10(k - 1) <= n < Pow10(k)
    ensures |DigitsOf(n)| == k
  {
    if k > 1 {
      DigitsLength(n / 10, k - 1);
    }
  }
}
