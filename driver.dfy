/**
 * The token-rewrite loop of main: every token the splitter yields is written
 * out unchanged, or replaced by the formatted time when it is a number token
 * whose significant digits the matcher accepts. The time converter and the
 * formatter are parameters.
 */
module Driver {
  import opened Wrappers
  import opened Strconv
  import opened Tokenizer
  import opened Splitter
  import opened RangeMatcher

  /** A token from scanner.Bytes() together with the splitter's NumberLoc at that moment. */
  datatype Scanned = Scanned(token: seq<Byte>, numberLoc: Option<Loc>)

  /** The slice `token[loc[2]:loc[3]]` stays inside the token. */
  predicate LocInToken(t: Scanned)
  {
    t.numberLoc.Some? ==> 0 <= t.numberLoc.value.digStart <= t.numberLoc.value.digEnd <= |t.token|
  }

  predicate AllLocsInTokens(ts: seq<Scanned>)
  {
    forall i :: 0 <= i < |ts| ==> LocInToken(ts[i])
  }

  function Digits(t: Scanned): seq<Byte>
    requires LocInToken(t) && t.numberLoc.Some?
  {
    t.token[t.numberLoc.value.digStart..t.numberLoc.value.digEnd]
  }

  /**
   * The output chunk of one token: the token itself when there is no number
   * location or the matcher rejects the digits (leading zeros kept), and
   * format(convert(v)) in place of the whole token, leading zeros included,
   * when the digits pass the gates and parse as a v inside the range.
   */
  function RewriteToken<T>(m: Matcher, t: Scanned, convert: Int64 -> T, format: T -> seq<Byte>): (out: seq<Byte>)
    requires LocInToken(t)
    ensures t.numberLoc.None? ==> out == t.token
    ensures t.numberLoc.Some? ==>
      var v := ParseInt(Digits(t));
      if PassesGates(m, Digits(t)) && v.Some? && m.uRange.Contains(v.value)
      then out == format(convert(v.value))
      else out == t.token
  {
    match t.numberLoc
    case None => t.token
    case Some(loc) =>
      var (unix, isMatch) := Match(m, t.token[loc.digStart..loc.digEnd]);
      if isMatch then format(convert(unix)) else t.token
  }

  /** The whole output: the chunks of the tokens, in order. */
  function Rewritten<T>(m: Matcher, ts: seq<Scanned>, convert: Int64 -> T, format: T -> seq<Byte>): seq<Byte>
    requires AllLocsInTokens(ts)
  {
    if ts == [] then []
    else Rewritten(m, ts[..|ts| - 1], convert, format) + RewriteToken(m, ts[|ts| - 1], convert, format)
  }

  /** The tokens themselves, concatenated. */
  function Concat(ts: seq<Scanned>): seq<Byte>
  {
    if ts == [] then [] else Concat(ts[..|ts| - 1]) + ts[|ts| - 1].token
  }

  /** The scan loop of main, writing each chunk to the output in turn. */
  method Rewrite<T>(m: Matcher, ts: seq<Scanned>, convert: Int64 -> T, format: T -> seq<Byte>) returns (output: seq<Byte>)
    requires AllLocsInTokens(ts)
    ensures output == Rewritten(m, ts, convert, format)
  {
    output := [];
    for i := 0 to |ts|
      invariant output == Rewritten(m, ts[..i], convert, format)
    {
      assert ts[..i + 1][..i] == ts[..i];
      var data := ts[i].token;
      var numberLoc := ts[i].numberLoc;
      if numberLoc.None? {
        output := output + data;
        continue;
      }
      var loc := numberLoc.value;
      var (unix, isMatch) := Match(m, data[loc.digStart..loc.digEnd]);
      if !isMatch {
        output := output + data;
        continue;
      }
      var tstamp := convert(unix);
      var toPrint := format(tstamp);
      output := output + toPrint;
    }
    assert ts[..|ts|] == ts;
  }

  /** Output chunks are produced token by token: rewriting splits over concatenation. */
  lemma {:induction false} RewrittenAppend<T>(m: Matcher, a: seq<Scanned>, b: seq<Scanned>, convert: Int64 -> T, format: T -> seq<Byte>)
    requires AllLocsInTokens(a) && AllLocsInTokens(b)
    ensures AllLocsInTokens(a + b)
    ensures Rewritten(m, a + b, convert, format) == Rewritten(m, a, convert, format) + Rewritten(m, b, convert, format)
  {
    AppendKeepsLocs(a, b);
    if b == [] {
      assert a + b == a;
    } else {
      var n := |b| - 1;
      var ab := a + b;
      assert ab[..|ab| - 1] == a + b[..n];
      assert ab[|ab| - 1] == b[n];
      AppendKeepsLocs(a, b[..n]);
      RewrittenAppend(m, a, b[..n], convert, format);
    }
  }

  lemma AppendKeepsLocs(a: seq<Scanned>, b: seq<Scanned>)
    requires AllLocsInTokens(a) && AllLocsInTokens(b)
    ensures AllLocsInTokens(a + b)
  {
    forall i | 0 <= i < |a + b| ensures LocInToken((a + b)[i]) {
      if i < |a| {
        assert (a + b)[i] == a[i];
      } else {
        assert (a + b)[i] == b[i - |a|];
      }
    }
  }

  /** Without a number location the output is the input, byte for byte. */
  lemma {:induction false} RewrittenIdentity<T>(m: Matcher, ts: seq<Scanned>, convert: Int64 -> T, format: T -> seq<Byte>)
    requires forall i :: 0 <= i < |ts| ==> ts[i].numberLoc.None?
    ensures AllLocsInTokens(ts)
    ensures Rewritten(m, ts, convert, format) == Concat(ts)
  {
    if ts != [] {
      RewrittenIdentity(m, ts[..|ts| - 1], convert, format);
    }
  }

  /**
   * The stale location: for the range [0, 100] and the input "01 00 ", the
   * splitter returns the number token "01" and then the literal " 00 ", still
   * reporting the location of "01"; the rewrite then matches the "0" inside
   * the literal and replaces the whole literal by the formatted time of 0.
   */
  lemma StaleNumberLocReplacesLiteral<T>(convert: Int64 -> T, format: T -> seq<Byte>)
    ensures var data: seq<Byte> := [Zero, Zero + 1, 32, Zero, Zero, 32];
      var (s1, r1) := SplitStep(Initial, data, false);
      r1.token == Some(data[..2]) && 0 <= r1.advance <= |data| &&
      var (s2, r2) := SplitStep(s1, data[r1.advance..], false);
      && r2.token == Some(data[2..])
      && NoNonZeroDigit(data[2..])
      && s2.numberLoc == Some(Loc(0, 2, 1, 2))
      && RewriteToken(MatcherFor(UnixRange(0, 100)), Scanned(data[2..], s2.numberLoc), convert, format)
         == format(convert(0))
  {
    var data: seq<Byte> := [Zero, Zero + 1, 32, Zero, Zero, 32];
    assert FindNumber(data) == Some(Loc(0, 2, 1, 2)) by {
      FoundIsUnique(data, Loc(0, 2, 1, 2));
    }
    assert FindNumber(data[2..]) == None by {
      assert NoNonZeroDigit(data[2..]);
    }
    assert data[2..] == [32, Zero, Zero, 32];
    assert data[2..][1..2] == [Zero];
    MatchZeroInZeroToHundred();
  }

  /** For the range [0, 100] the gates let the one-byte slice "0" through, and 0 is in range. */
  lemma MatchZeroInZeroToHundred()
    ensures Match(MatcherFor(UnixRange(0, 100)), [Zero]) == (0, true)
  {
    assert UnixRange(0, 100).LowerString() == [Zero];
    assert UnixRange(0, 100).UpperString() == [Zero + 1, Zero, Zero];
    assert MatcherFor(UnixRange(0, 100)).prefix == [];
    assert ParseInt([Zero]) == Some(0);
  }

  /**
   * With the corrected splitter a literal token is always written unchanged,
   * and the slice of a number token always lies inside it.
   */
  lemma CorrectedLiteralsPassThrough<T>(m: Matcher, s: State, pending: seq<Byte>, data: seq<Byte>, atEOF: bool,
                                        convert: Int64 -> T, format: T -> seq<Byte>)
    requires Coherent(s, pending) && pending <= data
    ensures CachedFits(s, data)
    ensures var (s', r) := SplitStepCorrected(s, data, atEOF);
      r.token.Some? ==>
        && LocInToken(Scanned(r.token.value, s'.numberLoc))
        && (NoNonZeroDigit(r.token.value) ==>
              RewriteToken(m, Scanned(r.token.value, s'.numberLoc), convert, format) == r.token.value)
  {
    CorrectedLocMarksNumberTokens(s, pending, data, atEOF);
    var (s', r) := SplitStepCorrected(s, data, atEOF);
    if r.token.Some? && s'.numberLoc.Some? {
      var l := s'.numberLoc.value;
      assert r.token.value[l.digStart] == data[l.digStart];
    }
  }

  /** Nanoseconds per millisecond. */
  const NanosPerMs: int := 1_000_000

  /** Go's integer quotient for a positive divisor: rounded toward zero. */
  function TruncDiv(a: int, b: int): (q: int)
    requires b > 0
    ensures a >= 0 ==> 0 <= a - b * q < b
    ensures a < 0 ==> -b < a - b * q <= 0
  {
    if a >= 0 then a / b else -((-a) / b)
  }

  /** Go's remainder: it takes the sign of the dividend. */
  function TruncMod(a: int, b: int): (m: int)
    requires b > 0
    ensures a == b * TruncDiv(a, b) + m
    ensures a >= 0 ==> 0 <= m < b
    ensures a < 0 ==> -b < m <= 0
  {
    a - b * TruncDiv(a, b)
  }

  /**
   * millisecondConverter's split of a millisecond count into seconds and
   * nanoseconds, with Go's truncating / and %: together they denote the
   * same instant, and the nanoseconds have the sign of unix.
   */
  function MillisecondSplit(unix: Int64): (r: (int, int))
    ensures r.0 * 1_000_000_000 + r.1 == unix * NanosPerMs
    ensures -1_000_000_000 < r.1 < 1_000_000_000
    ensures unix >= 0 ==> 0 <= r.1
    ensures unix <= 0 ==> r.1 <= 0
  {
    (TruncDiv(unix, 1000), NanosPerMs * TruncMod(unix, 1000))
  }

  /** Truncation differs from Dafny's Euclidean division: -1 ms is 0 s and -1000000 ns. */
  lemma MillisecondSplitTruncates()
    ensures MillisecondSplit(-1) == (0, -1_000_000)
    ensures MillisecondSplit(-1999) == (-1, -999_000_000)
  {
  }
}
