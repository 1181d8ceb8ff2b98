/**
 * numberSplitter.Split, the bufio.SplitFunc that cuts the input into literal
 * tokens and number tokens. SplitStep is the transition of its three fields
 * as a function; NumberSplitter is the object whose Split method performs it.
 */
module Splitter {
  import opened Wrappers
  import opened Strconv
  import opened Tokenizer

  /** The three fields of numberSplitter. */
  datatype State = State(numberLoc: Option<Loc>, nextLoc: Option<Loc>, nextNeedMore: bool)

  /** What Split returns: the advance count, the token (None for nil) and whether the error is ErrFinalToken. */
  datatype Reply = Reply(advance: int, token: Option<seq<Byte>>, final: bool)

  /** The zero value `&numberSplitter{}`. */
  const Initial: State := State(None, None, false)

  /** The cached location must lie inside the bytes of the call that uses it. */
  predicate CachedFits(s: State, data: seq<Byte>)
  {
    s.nextLoc.Some? ==> 0 <= s.nextLoc.value.start <= s.nextLoc.value.end <= |data|
  }

  /** One call of Split on the unconsumed bytes `data`. */
  function SplitStep(s: State, data: seq<Byte>, atEOF: bool): (State, Reply)
    requires CachedFits(s, data)
  {
    if s.nextNeedMore then
      (s.(nextNeedMore := false), Reply(0, None, false))
    else if s.nextLoc.Some? then
      var loc := s.nextLoc.value;
      (s.(numberLoc := Some(loc), nextLoc := None), Reply(loc.end - loc.start, Some(data[loc.start..loc.end]), false))
    else
      match FindNumber(data)
      case None => (s, Reply(|data|, Some(data), atEOF))
      case Some(loc) =>
        if loc.start > 0 then
          if loc.end == |data| then
            if atEOF then (s, Reply(|data|, Some(data), true))
            else (s.(nextNeedMore := true), Reply(loc.start, Some(data[0..loc.start]), false))
          else
            var d := loc.start;
            var shifted := Loc(0, loc.end - d, loc.digStart - d, loc.digEnd - d);
            (s.(nextLoc := Some(shifted)), Reply(loc.start, Some(data[0..loc.start]), false))
        else
          (s.(numberLoc := Some(loc)), Reply(loc.end - loc.start, Some(data[loc.start..loc.end]), false))
  }

  /**
   * The state invariant under the growing-prefix protocol, where `pending`
   * is what the previous call left unconsumed: the two deferrals never
   * coexist, and a cached location is the match FindNumber finds at the
   * front of the pending bytes, followed by at least one more byte.
   */
  predicate Coherent(s: State, pending: seq<Byte>)
  {
    && !(s.nextNeedMore && s.nextLoc.Some?)
    && (s.nextLoc.Some? ==>
          && s.nextLoc.value.start == 0
          && s.nextLoc.value.end < |pending|
          && FindNumber(pending) == s.nextLoc)
  }

  /** Whether the call stores a number location (main.go:249 and main.go:286). */
  predicate SetsNumberLoc(s: State, data: seq<Byte>)
  {
    !s.nextNeedMore && (s.nextLoc.Some? || (FindNumber(data).Some? && FindNumber(data).value.start == 0))
  }

  /** Whether the call takes the end-of-input fallback of main.go:264-267. */
  predicate IsEofFallback(s: State, data: seq<Byte>, atEOF: bool)
  {
    && !s.nextNeedMore && s.nextLoc.None? && atEOF
    && FindNumber(data).Some? && FindNumber(data).value.start > 0 && FindNumber(data).value.end == |data|
  }

  lemma CoherentFits(s: State, pending: seq<Byte>, data: seq<Byte>)
    requires Coherent(s, pending) && pending <= data
    ensures CachedFits(s, data)
  {
  }

  /**
   * Every reply consumes a prefix of the data and returns exactly that prefix
   * as its token; nothing is consumed only on the deferred need-more call or
   * when there is no data; the final token is returned only at end of input.
   */
  lemma SplitTokenIsPrefix(s: State, pending: seq<Byte>, data: seq<Byte>, atEOF: bool)
    requires Coherent(s, pending) && pending <= data
    ensures CachedFits(s, data)
    ensures var r := SplitStep(s, data, atEOF).1;
      && 0 <= r.advance <= |data|
      && (r.token.Some? ==> r.token.value == data[..r.advance])
      && (r.token.None? <==> s.nextNeedMore)
      && (r.advance == 0 ==> s.nextNeedMore || |data| == 0)
      && (r.final ==> atEOF && r.advance == |data|)
  {
    if s.nextLoc.Some? {
      FindNumberStable(pending, data);
    }
  }

  /** The invariant is kept, with the unconsumed bytes as the new pending bytes. */
  lemma SplitKeepsCoherent(s: State, pending: seq<Byte>, data: seq<Byte>, atEOF: bool)
    requires Coherent(s, pending) && pending <= data
    ensures CachedFits(s, data)
    ensures var (s', r) := SplitStep(s, data, atEOF);
      0 <= r.advance <= |data| && Coherent(s', data[r.advance..])
  {
    SplitTokenIsPrefix(s, pending, data, atEOF);
    if !s.nextNeedMore && s.nextLoc.None? && FindNumber(data).Some? {
      var loc := FindNumber(data).value;
      if loc.start > 0 && loc.end < |data| {
        ShiftedMatch(data, loc);
      }
    }
  }

  /** After the literal in front of a match is consumed, the shifted location is the match of the rest. */
  lemma ShiftedMatch(data: seq<Byte>, loc: Loc)
    requires IsFound(data, loc) && loc.end < |data|
    ensures var d := loc.start;
      FindNumber(data[d..]) == Some(Loc(0, loc.end - d, loc.digStart - d, loc.digEnd - d))
  {
    var d := loc.start;
    var rest := data[d..];
    var shifted := Loc(0, loc.end - d, loc.digStart - d, loc.digEnd - d);
    assert rest[..shifted.digStart] == data[d..loc.digStart];
    forall j | shifted.start <= j < shifted.digStart ensures rest[j] == Zero {
      assert rest[j] == data[d + j];
    }
    forall j | shifted.digStart < j < shifted.end ensures IsDigit(rest[j]) {
      assert rest[j] == data[d + j];
    }
    assert rest[shifted.end] == data[loc.end];
    FoundIsUnique(rest, shifted);
  }

  /**
   * A call that stores a number location returns a number token: the
   * location is the leftmost-longest match of the data, it starts at offset
   * 0 and ends at the end of the token (so FindNumberIsLeftmostLongest gives
   * the regular-expression facts about it).
   */
  lemma SplitNumberToken(s: State, pending: seq<Byte>, data: seq<Byte>, atEOF: bool)
    requires Coherent(s, pending) && pending <= data
    requires SetsNumberLoc(s, data)
    ensures CachedFits(s, data)
    ensures var (s', r) := SplitStep(s, data, atEOF);
      && FindNumber(data).Some?
      && s'.numberLoc == FindNumber(data)
      && s'.numberLoc.value.start == 0
      && r.token == Some(data[..s'.numberLoc.value.end])
      && r.advance == s'.numberLoc.value.end > 0
      && !r.final
  {
    if s.nextLoc.Some? {
      FindNumberStable(pending, data);
    }
  }

  /**
   * Every other token is a literal: it holds no non-zero digit, and the
   * number location keeps whatever value it had (it is never cleared). The
   * one exception is the end-of-input fallback, which returns the whole
   * data, number included, as the final token.
   */
  lemma SplitLiteralToken(s: State, pending: seq<Byte>, data: seq<Byte>, atEOF: bool)
    requires Coherent(s, pending) && pending <= data
    requires !SetsNumberLoc(s, data)
    ensures CachedFits(s, data)
    ensures var (s', r) := SplitStep(s, data, atEOF);
      && s'.numberLoc == s.numberLoc
      && (r.token.Some? && !IsEofFallback(s, data, atEOF) ==> NoNonZeroDigit(r.token.value))
      && (IsEofFallback(s, data, atEOF) ==>
            r == Reply(|data|, Some(data), true) && s' == s && !NoNonZeroDigit(data))
  {
    if !s.nextNeedMore && s.nextLoc.None? {
      match FindNumber(data)
      case None =>
      case Some(loc) =>
        var lit := data[0..loc.start];
        assert lit == data[..loc.digStart][..loc.start];
        forall j | 0 <= j < |lit| ensures !IsNonZeroDigit(lit[j]) {
          assert lit[j] == data[..loc.digStart][j];
        }
    }
  }

  /**
   * The two deferrals are one-shot. After a need-more literal the next call
   * consumes nothing and clears the flag. After a cached literal the next
   * call returns the cached number without scanning, and its reply and new
   * state are exactly what a fresh scan of the data would have produced.
   */
  lemma SplitDeferralIsOneShot(s: State, pending: seq<Byte>, data: seq<Byte>, atEOF: bool)
    requires Coherent(s, pending) && pending <= data
    ensures CachedFits(s, data)
    ensures s.nextNeedMore ==>
      SplitStep(s, data, atEOF) == (s.(nextNeedMore := false), Reply(0, None, false))
    ensures s.nextLoc.Some? ==>
      var idle := s.(nextLoc := None);
      && SplitStep(s, data, atEOF) == SplitStep(idle, data, atEOF)
      && SplitStep(s, data, atEOF).0.numberLoc == s.nextLoc
      && SplitStep(s, data, atEOF).0.nextLoc == None
  {
    if s.nextLoc.Some? {
      FindNumberStable(pending, data);
    }
  }

  /** `nextLoc` and `nextNeedMore` are never both set, from the zero value on. */
  lemma DeferralsExclusive(s: State, pending: seq<Byte>, data: seq<Byte>, atEOF: bool)
    requires Coherent(s, pending) && pending <= data
    ensures CachedFits(s, data)
    ensures var s' := SplitStep(s, data, atEOF).0;
      !(s'.nextNeedMore && s'.nextLoc.Some?)
      && (s.numberLoc.Some? ==> s'.numberLoc.Some?)
  {
  }

  /**
   * Split with the number location cleared at the start of every call, so
   * that it is set exactly when the returned token is a number token.
   */
  function SplitStepCorrected(s: State, data: seq<Byte>, atEOF: bool): (State, Reply)
    requires CachedFits(s, data)
  {
    SplitStep(s.(numberLoc := None), data, atEOF)
  }

  /**
   * In the corrected splitter a number location is present exactly when the
   * token is a number token, and then it lies inside that token.
   */
  lemma CorrectedLocMarksNumberTokens(s: State, pending: seq<Byte>, data: seq<Byte>, atEOF: bool)
    requires Coherent(s, pending) && pending <= data
    ensures CachedFits(s, data)
    ensures var (s', r) := SplitStepCorrected(s, data, atEOF);
      && (s'.numberLoc.Some? <==> SetsNumberLoc(s, data))
      && (s'.numberLoc.Some? ==>
            var l := s'.numberLoc.value;
            && r.token.Some? && l.start == 0 && l.end == |r.token.value|
            && IsFound(data, l) && 0 <= l.digStart <= l.digEnd <= |r.token.value|)
  {
    var idle := s.(numberLoc := None);
    if SetsNumberLoc(s, data) {
      SplitNumberToken(idle, pending, data, atEOF);
      SplitTokenIsPrefix(idle, pending, data, atEOF);
    } else {
      SplitLiteralToken(idle, pending, data, atEOF);
    }
  }

  /**
   * The tokens depend on where the reads cut the input: read whole, the
   * timestamp "1613336683" is one number token; when the first read stops
   * after "16", the number token "16" is returned at once (main.go:286-287),
   * although more digits follow.
   */
  lemma NumberCutAtBufferEnd()
    ensures var whole: seq<Byte> := [Zero + 1, Zero + 6, Zero + 1, Zero + 3, Zero + 3,
                                     Zero + 3, Zero + 6, Zero + 6, Zero + 8, Zero + 3];
      && SplitStep(Initial, whole, false).1 == Reply(10, Some(whole), false)
      && SplitStep(Initial, whole[..2], false).1 == Reply(2, Some(whole[..2]), false)
  {
    var whole: seq<Byte> := [Zero + 1, Zero + 6, Zero + 1, Zero + 3, Zero + 3,
                             Zero + 3, Zero + 6, Zero + 6, Zero + 8, Zero + 3];
    FoundIsUnique(whole, Loc(0, 10, 0, 10));
    assert whole[0..10] == whole;
    FoundIsUnique(whole[..2], Loc(0, 2, 0, 2));
    assert whole[..2][0..2] == whole[..2];
  }

  lemma PrefixAndRest(before: seq<Byte>, data: seq<Byte>, k: int)
    requires 0 <= k <= |data|
    ensures (before + data[..k]) + data[k..] == before + data
  {
    assert data[..k] + data[k..] == data;
  }

  /**
   * The splitter object. `unconsumed` and `emitted` are ghost: the bytes the
   * last call left unconsumed and the concatenation of every token returned.
   */
  class NumberSplitter {
    var numberLoc: Option<Loc>
    var nextLoc: Option<Loc>
    var nextNeedMore: bool
    ghost var unconsumed: seq<Byte>
    ghost var emitted: seq<Byte>

    function Fields(): State
      reads this
    {
      State(numberLoc, nextLoc, nextNeedMore)
    }

    ghost predicate Valid()
      reads this
    {
      Coherent(Fields(), unconsumed)
    }

    constructor ()
      ensures Valid() && Fields() == Initial
      ensures unconsumed == [] && emitted == []
    {
      numberLoc, nextLoc, nextNeedMore := None, None, false;
      unconsumed, emitted := [], [];
    }

    /**
     * Split(data, atEOF). The protocol demands that `data` start with the
     * bytes the previous call left unconsumed.
     */
    method Split(data: seq<Byte>, atEOF: bool) returns (advance: int, token: Option<seq<Byte>>, final: bool)
      requires Valid()
      requires unconsumed <= data
      modifies this
      ensures Valid()
      ensures CachedFits(old(Fields()), data)
      ensures (Fields(), Reply(advance, token, final)) == SplitStep(old(Fields()), data, atEOF)
      ensures 0 <= advance <= |data|
      ensures token.Some? ==> token.value == data[..advance]
      ensures unconsumed == data[advance..]
      ensures emitted == old(emitted) + (if token.Some? then token.value else [])
      ensures emitted + unconsumed == old(emitted) + data
    {
      ghost var s := Fields();
      CoherentFits(s, unconsumed, data);
      if nextNeedMore {
        nextNeedMore := false;
        advance, token, final := 0, None, false;
      } else if nextLoc.Some? {
        var loc := nextLoc.value;
        numberLoc := Some(loc);
        nextLoc := None;
        advance, token, final := loc.end - loc.start, Some(data[loc.start..loc.end]), false;
      } else {
        advance, token, final := Scan(data, atEOF);
      }
      SplitKeepsCoherent(s, unconsumed, data, atEOF);
      SplitTokenIsPrefix(s, unconsumed, data, atEOF);
      unconsumed := data[advance..];
      ghost var t := if token.Some? then token.value else [];
      PrefixAndRest(emitted, data, advance);
      emitted := emitted + t;
    }

    /** The part of Split after the two deferrals: scan for a number and act on the match. */
    method Scan(data: seq<Byte>, atEOF: bool) returns (advance: int, token: Option<seq<Byte>>, final: bool)
      requires !nextNeedMore && nextLoc.None?
      modifies this`numberLoc, this`nextLoc, this`nextNeedMore
      ensures (Fields(), Reply(advance, token, final)) == SplitStep(old(Fields()), data, atEOF)
    {
      var loc := FindNumber(data);
      if loc.None? {
        if atEOF {
          return |data|, Some(data), true;
        }
        return |data|, Some(data), false;
      }
      var l := loc.value;
      if l.start > 0 {
        // Integers were found, but the literal in front of them goes first.
        if l.end == |data| {
          if atEOF {
            return |data|, Some(data), true;
          }
          nextNeedMore := true;
          return l.start, Some(data[0..l.start]), false;
        }
        var toReturn := data[0..l.start];
        var toSubtract := l.start;
        l := l.(start := 0);
        l := l.(end := l.end - toSubtract);
        l := l.(digStart := l.digStart - toSubtract);
        l := l.(digEnd := l.digEnd - toSubtract);
        nextLoc := Some(l);
        return |toReturn|, Some(toReturn), false;
      }
      numberLoc := Some(l);
      return l.end - l.start, Some(data[l.start..l.end]), false;
    }
  }
}
