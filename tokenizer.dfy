/**
 * The number pattern of the splitter: Go's regexp
 * `0*(?P<number>[1-9][0-9]{0,N})` with N = len(FormatInt(MaxInt64, 10)),
 * compiled with Longest() so that it reports leftmost-longest matches.
 * FindNumber is a scanner that returns the submatch index slice
 * `[start, end, digStart, digEnd]` that FindSubmatchIndex returns.
 */
module Tokenizer {
  import opened Wrappers
  import opened Strconv

  /** N in `[0-9]{0,N}`: the number of decimal digits of MaxInt64 (see RepeatBoundIsInt64Width). */
  const RepeatBound: nat := 19

  /** Significant digits a match may hold: one non-zero digit and up to RepeatBound more. */
  const MaxSignificant: nat := RepeatBound + 1

  /** The index slice of one match: the whole match and the `number` group. */
  datatype Loc = Loc(start: int, end: int, digStart: int, digEnd: int)

  /** The regular language `0*[1-9][0-9]{0,N}`, written independently of the scanner. */
  ghost predicate InPattern(s: seq<Byte>)
  {
    exists z :: 0 <= z < |s| && IsNonZeroDigit(s[z])
      && (forall j :: 0 <= j < z ==> s[j] == Zero)
      && (forall j :: z < j < |s| ==> IsDigit(s[j]))
      && |s| - z <= MaxSignificant
  }

  predicate NoNonZeroDigit(s: seq<Byte>)
  {
    forall j :: 0 <= j < |s| ==> !IsNonZeroDigit(s[j])
  }

  /**
   * What a leftmost-longest match `l` of the pattern in `data` satisfies:
   * no non-zero digit before the group, the whole run of zeros in front of
   * it, and the digit run extended until it ends or reaches the cap.
   */
  predicate IsFound(data: seq<Byte>, l: Loc)
  {
    && 0 <= l.start <= l.digStart < l.end <= |data| && l.digEnd == l.end
    && NoNonZeroDigit(data[..l.digStart])
    && IsNonZeroDigit(data[l.digStart])
    && (forall j :: l.start <= j < l.digStart ==> data[j] == Zero)
    && (l.start == 0 || data[l.start - 1] != Zero)
    && (forall j :: l.digStart < j < l.end ==> IsDigit(data[j]))
    && l.end - l.digStart <= MaxSignificant
    && (l.end == |data| || l.end - l.digStart == MaxSignificant || !IsDigit(data[l.end]))
  }

  /** The first non-zero digit at or after i, or |data| when there is none. */
  function FirstNonZero(data: seq<Byte>, i: nat): (q: nat)
    requires i <= |data|
    ensures i <= q <= |data|
    ensures q < |data| ==> IsNonZeroDigit(data[q])
    ensures forall j :: i <= j < q ==> !IsNonZeroDigit(data[j])
    decreases |data| - i
  {
    if i == |data| || IsNonZeroDigit(data[i]) then i else FirstNonZero(data, i + 1)
  }

  /** The start of the run of '0' bytes that ends just before q. */
  function ZeroRunStart(data: seq<Byte>, q: nat): (p: nat)
    requires q <= |data|
    ensures p <= q
    ensures forall j :: p <= j < q ==> data[j] == Zero
    ensures p == 0 || data[p - 1] != Zero
  {
    if q == 0 || data[q - 1] != Zero then q else ZeroRunStart(data, q - 1)
  }

  /** The end of the run of digits that starts at i, taking at most `limit` of them. */
  function DigitRunEnd(data: seq<Byte>, i: nat, limit: nat): (e: nat)
    requires i <= |data|
    ensures i <= e <= |data| && e - i <= limit
    ensures forall j :: i <= j < e ==> IsDigit(data[j])
    ensures e == |data| || e - i == limit || !IsDigit(data[e])
    decreases limit
  {
    if limit == 0 || i == |data| || !IsDigit(data[i]) then i else DigitRunEnd(data, i + 1, limit - 1)
  }

  /** number.FindSubmatchIndex(data): None exactly when data holds no non-zero digit. */
  function FindNumber(data: seq<Byte>): (r: Option<Loc>)
    ensures r.None? <==> NoNonZeroDigit(data)
    ensures r.Some? ==> IsFound(data, r.value)
  {
    var q := FirstNonZero(data, 0);
    if q == |data| then None
    else
      var e := DigitRunEnd(data, q, MaxSignificant);
      Some(Loc(ZeroRunStart(data, q), e, q, e))
  }

  /** IsFound pins the match down: it is the one FindNumber returns. */
  lemma FoundIsUnique(data: seq<Byte>, l: Loc)
    requires IsFound(data, l)
    ensures FindNumber(data) == Some(l)
  {
    var q := FirstNonZero(data, 0);
    assert q == l.digStart;
    var p := ZeroRunStart(data, q);
    var e := DigitRunEnd(data, q, MaxSignificant);
  }

  /** A match of the pattern at [p, e) of data, restated with indices into data. */
  lemma PatternAt(data: seq<Byte>, p: int, e: int) returns (q: int)
    requires 0 <= p <= e <= |data| && InPattern(data[p..e])
    ensures p <= q < e && IsNonZeroDigit(data[q])
    ensures forall j :: p <= j < q ==> data[j] == Zero
    ensures forall j :: q < j < e ==> IsDigit(data[j])
    ensures e - q <= MaxSignificant
  {
    var s := data[p..e];
    var z :| 0 <= z < |s| && IsNonZeroDigit(s[z])
      && (forall j :: 0 <= j < z ==> s[j] == Zero)
      && (forall j :: z < j < |s| ==> IsDigit(s[j]))
      && |s| - z <= MaxSignificant;
    q := p + z;
    forall j | p <= j < q ensures data[j] == Zero {
      assert data[j] == s[j - p];
    }
    forall j | q < j < e ensures IsDigit(data[j]) {
      assert data[j] == s[j - p];
    }
  }

  /**
   * FindNumber follows the leftmost-longest rule of Longest(): the match it
   * reports is in the pattern, no match starts further left, no longer match
   * starts at the same place, and nothing matches when it reports None.
   */
  lemma FindNumberIsLeftmostLongest(data: seq<Byte>)
    ensures FindNumber(data).None? ==>
      forall p, e :: 0 <= p <= e <= |data| ==> !InPattern(data[p..e])
    ensures FindNumber(data).Some? ==>
      var l := FindNumber(data).value;
      && InPattern(data[l.start..l.end])
      && (forall p, e :: 0 <= p < l.start && p <= e <= |data| ==> !InPattern(data[p..e]))
      && (forall e :: l.end < e <= |data| ==> !InPattern(data[l.start..e]))
  {
    match FindNumber(data)
    case None =>
      forall p, e | 0 <= p <= e <= |data| ensures !InPattern(data[p..e]) {
        if InPattern(data[p..e]) {
          var q := PatternAt(data, p, e);
        }
      }
    case Some(l) =>
      FoundInPattern(data, l);
      forall p, e | 0 <= p < l.start && p <= e <= |data| ensures !InPattern(data[p..e]) {
        if InPattern(data[p..e]) {
          var q := PatternAt(data, p, e);
          NoNonZeroBefore(data, l, q);
        }
      }
      forall e | l.end < e <= |data| ensures !InPattern(data[l.start..e]) {
        if InPattern(data[l.start..e]) {
          var q := PatternAt(data, l.start, e);
          NoNonZeroBefore(data, l, q);
        }
      }
  }

  lemma FoundInPattern(data: seq<Byte>, l: Loc)
    requires IsFound(data, l)
    ensures InPattern(data[l.start..l.end])
  {
    var s := data[l.start..l.end];
    var z := l.digStart - l.start;
    assert IsNonZeroDigit(s[z]);
    assert forall j :: 0 <= j < z ==> s[j] == data[l.start + j];
    assert forall j :: z < j < |s| ==> s[j] == data[l.start + j];
  }

  lemma NoNonZeroBefore(data: seq<Byte>, l: Loc, q: int)
    requires IsFound(data, l) && 0 <= q < |data| && IsNonZeroDigit(data[q])
    ensures l.digStart <= q
  {
  }

  /**
   * A match that stops before the end of the visible bytes stays the match
   * when more bytes are appended: the bytes that decided it are all there.
   */
  lemma FindNumberStable(pending: seq<Byte>, data: seq<Byte>)
    requires pending <= data
    requires FindNumber(pending).Some? && FindNumber(pending).value.end < |pending|
    ensures FindNumber(data) == FindNumber(pending)
  {
    var l := FindNumber(pending).value;
    assert data[..l.digStart] == pending[..l.digStart];
    FoundIsUnique(data, l);
  }

  /** The repetition bound is the length of MaxInt64 in decimal, as the source computes it. */
  lemma RepeatBoundIsInt64Width()
    ensures |FormatInt(MaxInt64)| == RepeatBound
  {
    assert Pow10(6) == 1_000_000;
    assert Pow10(12) == 1_000_000_000_000;
    assert Pow10(18) == 1_000_000_000_000_000_000;
    DigitsLength(MaxInt64, 19);
  }
}
