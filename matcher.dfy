/**
 * The range matcher: an inclusive int64 range, the length and prefix gates
 * precomputed from the decimal texts of its bounds, and Match, which applies
 * the gates before parsing and range-checking a candidate.
 */
module RangeMatcher {
  import opened Wrappers
  import opened Strconv

  /** unixRange: both bounds inclusive. */
  datatype UnixRange = UnixRange(lower: Int64, upper: Int64)
  {
    /** The decimal text of the lower bound; ParseInt reads the bound back from it. */
    function LowerString(): (t: seq<Byte>)
      ensures ParseInt(t) == Some(lower)
    {
      ParseFormatRoundTrip(lower);
      FormatInt(lower)
    }

    /** The decimal text of the upper bound; ParseInt reads the bound back from it. */
    function UpperString(): (t: seq<Byte>)
      ensures ParseInt(t) == Some(upper)
    {
      ParseFormatRoundTrip(upper);
      FormatInt(upper)
    }

    /** Membership in the range; both bounds belong to it unless it is empty. */
    predicate Contains(i: int)
      ensures Contains(i) ==> lower <= upper
      ensures lower <= upper && (i == lower || i == upper) ==> Contains(i)
    {
      i >= lower && i <= upper
    }
  }

  datatype Matcher = Matcher(uRange: UnixRange, maxLen: nat, minLen: nat, prefix: seq<Byte>)

  function Min(a: int, b: int): (r: int)
    ensures r <= a && r <= b && (r == a || r == b)
  {
    if a < b then a else b
  }

  function Max(a: int, b: int): (r: int)
    ensures r >= a && r >= b && (r == a || r == b)
  {
    if a > b then a else b
  }

  /** The longest common prefix of two byte strings. */
  function CommonPrefix(a: seq<Byte>, b: seq<Byte>): (p: seq<Byte>)
    ensures p <= a && p <= b
    ensures |p| == |a| || |p| == |b| || a[|p|] != b[|p|]
  {
    if a == [] || b == [] || a[0] != b[0] then [] else [a[0]] + CommonPrefix(a[1..], b[1..])
  }

  /** A common prefix that cannot be extended is the longest one. */
  lemma CommonPrefixUnique(a: seq<Byte>, b: seq<Byte>, p: seq<Byte>)
    requires p <= a && p <= b
    requires |p| == |a| || |p| == |b| || a[|p|] != b[|p|]
    ensures p == CommonPrefix(a, b)
  {
  }

  /** The longest common prefix does not depend on the order of its arguments. */
  lemma CommonPrefixSymmetric(a: seq<Byte>, b: seq<Byte>)
    ensures CommonPrefix(a, b) == CommonPrefix(b, a)
    ensures |CommonPrefix(a, b)| <= Min(|a|, |b|)
  {
    CommonPrefixUnique(b, a, CommonPrefix(a, b));
  }

  /** buildPrefixOrdered: copies bytes of `shorter` while they agree with `longer`. */
  method BuildPrefixOrdered(shorter: seq<Byte>, longer: seq<Byte>) returns (res: seq<Byte>)
    requires |shorter| <= |longer|
    ensures res <= shorter && res <= longer
    ensures |res| == |shorter| || shorter[|res|] != longer[|res|]
    ensures res == CommonPrefix(shorter, longer)
  {
    res := [];
    for i := 0 to |shorter|
      invariant res == shorter[..i] && res == longer[..i]
    {
      if longer[i] != shorter[i] {
        CommonPrefixUnique(shorter, longer, res);
        return;
      }
      res := res + [shorter[i]];
    }
    CommonPrefixUnique(shorter, longer, res);
  }

  /** buildPrefix: orders the arguments by length and takes their longest common prefix. */
  method BuildPrefix(a: seq<Byte>, b: seq<Byte>) returns (res: seq<Byte>)
    ensures res <= a && res <= b
    ensures |res| == |a| || |res| == |b| || a[|res|] != b[|res|]
    ensures res == CommonPrefix(a, b)
  {
    if |a| < |b| {
      res := BuildPrefixOrdered(a, b);
    } else {
      res := BuildPrefixOrdered(b, a);
      CommonPrefixSymmetric(a, b);
    }
  }

  /**
   * The matcher newMatcher builds for a range: the length window spanned by
   * the two bound texts and a prefix they share.
   */
  function MatcherFor(r: UnixRange): (m: Matcher)
    ensures m.uRange == r
    ensures m.minLen <= m.maxLen
    ensures {m.minLen, m.maxLen} == {|r.LowerString()|, |r.UpperString()|}
    ensures m.prefix <= r.LowerString() && m.prefix <= r.UpperString()
    ensures |m.prefix| <= m.minLen
  {
    var lowerString, upperString := r.LowerString(), r.UpperString();
    CommonPrefixSymmetric(lowerString, upperString);
    Matcher(r, Max(|lowerString|, |upperString|), Min(|lowerString|, |upperString|),
            CommonPrefix(lowerString, upperString))
  }

  /** newMatcher. */
  method NewMatcher(r: UnixRange) returns (m: Matcher)
    ensures m == MatcherFor(r)
    ensures m.minLen <= m.maxLen && |m.prefix| <= m.minLen
    ensures m.prefix <= r.LowerString() && m.prefix <= r.UpperString()
  {
    var lowerString, upperString := r.LowerString(), r.UpperString();
    var prefix := BuildPrefix(lowerString, upperString);
    m := Matcher(r, Max(|lowerString|, |upperString|), Min(|lowerString|, |upperString|), prefix);
  }

  /** The length and prefix gates that Match applies before parsing. */
  predicate PassesGates(m: Matcher, b: seq<Byte>)
  {
    m.minLen <= |b| <= m.maxLen && m.prefix <= b
  }

  /**
   * Match: (v, true) only for a candidate that parses as the int64 v within
   * the range; (0, false) when a gate or the parse rejects it; (v, false)
   * when it parses as v outside the range.
   */
  function Match(m: Matcher, b: seq<Byte>): (r: (Int64, bool))
    ensures r.1 ==> ParseInt(b) == Some(r.0) && m.uRange.Contains(r.0)
    ensures !PassesGates(m, b) || ParseInt(b).None? ==> r == (0, false)
    ensures PassesGates(m, b) && ParseInt(b).Some? ==>
      r == (ParseInt(b).value, m.uRange.Contains(ParseInt(b).value))
  {
    var length := |b|;
    if length < m.minLen || length > m.maxLen then (0, false)
    else if !(m.prefix <= b) then (0, false)
    else match ParseInt(b)
      case None => (0, false)
      case Some(conversion) => (conversion, m.uRange.Contains(conversion))
  }

  /**
   * Completeness where the bounds have the same number of digits: every value
   * in a non-negative range is matched from its decimal text.
   */
  lemma MatchCompleteForSameWidthBounds(r: UnixRange, v: Int64)
    requires 0 <= r.lower <= v <= r.upper
    requires |r.LowerString()| == |r.UpperString()|
    ensures Match(MatcherFor(r), FormatInt(v)) == (v, true)
  {
    SameWidthSharesPrefix(r, v);
    ParseFormatRoundTrip(v);
  }

  /** A value between two bounds of one width has that width and starts with their common prefix. */
  lemma SameWidthSharesPrefix(r: UnixRange, v: Int64)
    requires 0 <= r.lower <= v <= r.upper
    requires |r.LowerString()| == |r.UpperString()|
    ensures |FormatInt(v)| == |r.LowerString()|
    ensures CommonPrefix(r.LowerString(), r.UpperString()) <= FormatInt(v)
  {
    assert r.LowerString() == DigitsOf(r.lower) && r.UpperString() == DigitsOf(r.upper);
    DigitsBetweenSharePrefix(r.lower, v, r.upper);
  }

  /** The same fact on the digit texts of natural numbers. */
  lemma DigitsBetweenSharePrefix(lo: nat, v: nat, hi: nat)
    requires lo <= v <= hi && |DigitsOf(lo)| == |DigitsOf(hi)|
    ensures |DigitsOf(v)| == |DigitsOf(lo)|
    ensures CommonPrefix(DigitsOf(lo), DigitsOf(hi)) <= DigitsOf(v)
  {
    var s, text, t := DigitsOf(lo), DigitsOf(v), DigitsOf(hi);
    DigitsOfLengthMonotone(lo, v);
    DigitsOfLengthMonotone(v, hi);
    assert |s| == |text| == |t|;
    ValueOfDigitsOf(lo);
    ValueOfDigitsOf(v);
    ValueOfDigitsOf(hi);
    DigitRunsBetweenSharePrefix(s, text, t);
  }

  /** Among digit runs of one length, a run between two others starts with their common prefix. */
  lemma DigitRunsBetweenSharePrefix(s: seq<Byte>, text: seq<Byte>, t: seq<Byte>)
    requires AllDigits(s) && AllDigits(text) && AllDigits(t)
    requires |s| == |text| == |t|
    requires ValueOf(s) <= ValueOf(text) <= ValueOf(t)
    ensures CommonPrefix(s, t) <= text
  {
    var p := CommonPrefix(s, t);
    assert s[..|p|] == p;
    assert t[..|p|] == p;
    SharedPrefixBetween(s, text, t, |p|);
    assert text[..|p|] == p;
  }

  /**
   * The limit of that completeness: for [1, 10] the bounds share the prefix
   * "1", so the in-range candidate "5" is turned away by the prefix gate.
   */
  lemma MatchRejectsInRangeValue()
    ensures UnixRange(1, 10).Contains(5)
    ensures Match(MatcherFor(UnixRange(1, 10)), FormatInt(5)) == (0, false)
  {
    var m := MatcherFor(UnixRange(1, 10));
    assert FormatInt(10) == [Zero + 1, Zero];
    assert CommonPrefix([Zero + 1], [Zero + 1, Zero]) == [Zero + 1];
    assert !(m.prefix <= FormatInt(5));
  }

  /**
   * A prefix gate that rejects only slices that cannot be in range: the
   * prefix only when the bounds have the same number of digits, no prefix
   * otherwise.
   */
  function MatcherForCorrected(r: UnixRange): Matcher
  {
    var m := MatcherFor(r);
    if |r.LowerString()| == |r.UpperString()| then m else m.(prefix := [])
  }

  /** With that prefix, every value of any non-negative range is matched. */
  lemma MatchCorrectedComplete(r: UnixRange, v: Int64)
    requires 0 <= r.lower <= v <= r.upper
    ensures Match(MatcherForCorrected(r), FormatInt(v)) == (v, true)
  {
    if |r.LowerString()| == |r.UpperString()| {
      MatchCompleteForSameWidthBounds(r, v);
    } else {
      DigitsOfLengthMonotone(r.lower, v);
      DigitsOfLengthMonotone(v, r.upper);
      ParseFormatRoundTrip(v);
    }
  }
}
