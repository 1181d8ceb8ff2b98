# unfy core in Dafny

unfy is a text filter. It reads a byte stream, finds decimal digit runs that
look like UNIX timestamps within a configured range, and replaces them with a
human-readable time. All other bytes pass through in order. This project
models the three parts of `main.go` that do the work and proves properties
about them:

- **Tokenizer** (`numberSplitter.Split`). This is a `bufio.SplitFunc` with
  three fields (`NumberLoc`, `nextLoc`, `nextNeedMore`). It cuts the stream
  into literal tokens and number tokens under the growing-prefix protocol of
  `bufio.Scanner`: each call sees all the bytes not yet consumed.
  - The number regexp `0*(?P<number>[1-9][0-9]{0,19})` with `Longest()` is
    replaced by a scanner, `Tokenizer.FindNumber`. The scanner is proved
    leftmost-longest against an independent statement of the regular
    language (`Tokenizer.InPattern`).
  - `Splitter.SplitStep` is one call of `Split`, written as a function over
    the three fields.
  - `Splitter.NumberSplitter` is the object. Its `Split` method updates the
    fields in place and is proved to perform `SplitStep`.
- **Range matcher** (`unixRange`, `newMatcher`, `Match`, `buildPrefix`).
  - The length window and the common prefix come from the decimal texts of
    the bounds (`strconv.FormatInt`).
  - `Match` applies the length gate, then the prefix gate, then
    `strconv.ParseInt` (base 10, int64, with overflow), then the inclusive
    range check.
- **Driver** (the scan loop of `main`). It works over a sequence of
  (token, `NumberLoc`) pairs. The time converter and the formatter are
  function parameters.
  - The integer split of `millisecondConverter` is modelled with Go's
    truncating `/` and `%`.

Modules:

- `Wrappers`: `Option`.
- `Strconv`: `Byte`, `Int64`, `FormatInt`, `ParseInt` and digit-string lemmas.
- `Tokenizer`: `FindNumber`.
- `Splitter`: `SplitStep`, `Coherent` (the state invariant) and the class
  `NumberSplitter`.
- `RangeMatcher`.
- `Driver`.

Two points where the code behaves differently from what a reader of its
names and comments would expect; the model follows the code:

- **A match can hold up to 20 significant digits, not 19.** The repetition
  bound `{0,19}` is the length of `FormatInt(MaxInt64)`, which is 19. Add
  the leading non-zero digit and a match can hold 20 digits
  (`Tokenizer.RepeatBoundIsInt64Width`).
- **The prefix gate is not a no-op when the bounds have different widths.**
  The common prefix is computed whatever the widths are. The doc comment of
  `Match` (main.go:332-333) promises to turn away only slices that cannot be
  timestamps, but this prefix also turns away values inside the range. See
  Findings.

## Model

| member | source | states |
|---|---|---|
| Strconv.FormatInt | main.go:295-296 | strconv.FormatInt(v, 10): '-' for a negative v, then the decimal digits of abs(v) (shape in FormatIntShape, inverse in ParseFormatRoundTrip) |
| Strconv.ParseInt | main.go:341 | strconv.ParseInt(s, 10, 64): an optional sign and at least one digit, whose value must fit in int64, otherwise an error; a result is only ever read from non-empty text, and is negative only after a '-' |
| Strconv.DigitsOf | main.go:295-296 | the decimal text of a non-negative value is a non-empty digit run that starts with '0' only for 0 |
| Strconv.FormatIntShape | main.go:295-296 | FormatInt's text starts with '-' exactly for negative values, and its digits have no leading zero |
| Strconv.ParseFormatRoundTrip | main.go:341 | ParseInt(FormatInt(v)) == Some(v) for every int64 v |
| Strconv.ParseIntOfDigits | main.go:341-344 | ParseInt of an unsigned digit run is its value when that value fits in int64, and an error (overflow) otherwise |
| Strconv.DigitsOfLengthMonotone | main.go:312-313 | a larger non-negative value never has a shorter decimal text |
| Strconv.SharedPrefixBetween | main.go:338 | among digit runs of one length, a run whose value lies between two others keeps the leading digits those two share |
| Strconv.DigitsLength | main.go:43 | n has k decimal digits when 10^(k-1) <= n < 10^k |
| Tokenizer.RepeatBoundIsInt64Width | main.go:43 | the repetition bound 19 is the length of FormatInt(MaxInt64), so a match holds up to 20 significant digits |
| Tokenizer.FindNumber | main.go:43-44 | None exactly when the data holds no byte in '1'..'9'; otherwise the match covers the whole run of zeros before the first non-zero digit and the digit run after it, up to 20 digits, and the group starts at that first non-zero digit |
| Tokenizer.FindNumberIsLeftmostLongest | main.go:43-44 | the reported slice is in the language 0*[1-9][0-9]{0,19}, no match starts further left, no longer match starts at the same place, and nothing matches when None is reported |
| Tokenizer.FoundIsUnique | main.go:254 | any location with the leftmost-longest properties is the one FindNumber reports |
| Tokenizer.FindNumberStable | main.go:246-252 | a match that ends before the end of the visible bytes stays the match when more bytes are appended |
| Splitter.SplitStep | main.go:238-288 | the three fields and the reply after one call, branch by branch as main.go:239-287: need-more, cached location, no match, match at the buffer end (EOF fallback or need-more), match with enough data (shift and cache), match at offset 0 |
| Splitter.NumberCutAtBufferEnd | main.go:286-287 | "1613336683" read whole is one number token, but a first read that stops after "16" returns "16" as a number token at once |
| Splitter.SplitTokenIsPrefix | main.go:238-288 | 0 <= advance <= len(data), the token is data[0:advance], the token is nil exactly on the deferred need-more call, advance is 0 only then or on empty data, and the final token is returned only at EOF |
| Splitter.SplitKeepsCoherent | main.go:261-283 | the invariant holds again afterwards, with the unconsumed bytes as the new pending bytes: the deferrals are never both set, and a cached location is the match at the front of the remaining bytes |
| Splitter.ShiftedMatch | main.go:273-281 | after the literal in front of a match is consumed, the shifted location (start 0) is the match of the remaining bytes |
| Splitter.SplitNumberToken | main.go:246-287 | a call that stores NumberLoc returns the leftmost-longest match of the data, starting at offset 0, as the token, with loc[1] == len(token) > 0 |
| Splitter.SplitLiteralToken | main.go:255-283 | every other token has no byte in '1'..'9' and leaves NumberLoc as it was (never cleared); the EOF fallback instead returns the whole data, number included, as the final token with the state unchanged |
| Splitter.SplitDeferralIsOneShot | main.go:239-252 | after a need-more literal the next call returns (0, nil) and clears the flag; after a cached literal the next call returns the cached number without scanning, and its reply and state equal what a fresh scan would give |
| Splitter.DeferralsExclusive | main.go:239-283 | nextLoc and nextNeedMore are never both set, and a set NumberLoc stays set |
| Splitter.SplitStepCorrected | main.go:238-288 | the splitter with NumberLoc cleared at the start of each call, otherwise SplitStep |
| Splitter.CorrectedLocMarksNumberTokens | main.go:229-237 | with NumberLoc cleared on each call, NumberLoc is present exactly for number tokens and lies inside them |
| Splitter.NumberSplitter.constructor | main.go:58 | the zero value: no location, no deferral, nothing consumed |
| Splitter.NumberSplitter.Split | main.go:238-288 | the fields and reply are one SplitStep; the invariant is kept; the token is data[0:advance]; the tokens returned so far, followed by the unconsumed bytes, are exactly the bytes fed so far |
| Splitter.NumberSplitter.Scan | main.go:254-287 | the scanning half of Split (no deferral pending) performs SplitStep |
| RangeMatcher.UnixRange.LowerString | main.go:295 | the decimal text of the lower bound, from which ParseInt reads the bound back |
| RangeMatcher.UnixRange.UpperString | main.go:296 | the decimal text of the upper bound, from which ParseInt reads the bound back |
| RangeMatcher.UnixRange.Contains | main.go:297-299 | both bounds inclusive: a member exists only when lower <= upper, and then both bounds are members |
| RangeMatcher.Min | main.go:318-323 | the result is one of the arguments and no larger than either |
| RangeMatcher.Max | main.go:325-330 | the result is one of the arguments and no smaller than either |
| RangeMatcher.CommonPrefix | main.go:348-364 | a prefix of both arguments that cannot be extended: it ends one of them, or the next bytes differ |
| RangeMatcher.CommonPrefixUnique | main.go:355-364 | any common prefix that cannot be extended is the longest common prefix |
| RangeMatcher.CommonPrefixSymmetric | main.go:348-353 | the longest common prefix is symmetric in its arguments and no longer than the shorter one |
| RangeMatcher.BuildPrefixOrdered | main.go:355-364 | the loop returns the longest common prefix of shorter and longer |
| RangeMatcher.BuildPrefix | main.go:348-353 | the longest common prefix of a and b, whichever is shorter |
| RangeMatcher.MatcherFor | main.go:308-316 | the matcher of a range: minLen <= maxLen are the two lengths of the bound texts, and the prefix is a prefix of both texts no longer than minLen |
| RangeMatcher.NewMatcher | main.go:308-316 | newMatcher builds that matcher |
| RangeMatcher.Match | main.go:334-346 | (v, true) only if the slice parses as the int64 v and Lower <= v <= Upper; (0, false) on a length, prefix or parse rejection; (v, Contains(v)) once the gates pass and the parse succeeds |
| RangeMatcher.SameWidthSharesPrefix | main.go:338 | a value between two non-negative bounds of one width has that width and starts with the bounds' common prefix |
| RangeMatcher.MatchCompleteForSameWidthBounds | main.go:332-346 | for non-negative bounds of the same width, every v in the range gives Match(FormatInt(v)) == (v, true) |
| RangeMatcher.MatchRejectsInRangeValue | main.go:338-340 | for range [1, 10] the in-range candidate "5" is rejected by the prefix gate |
| RangeMatcher.MatcherForCorrected | main.go:308-316 | the matcher with no prefix when the bound texts differ in length, otherwise MatcherFor |
| RangeMatcher.MatchCorrectedComplete | main.go:308-316 | with no prefix when the bound widths differ, every v in any non-negative range is matched |
| Driver.RewriteToken | main.go:65-83 | a token without NumberLoc is written unchanged; otherwise the digits token[loc[2]:loc[3]] replace the whole token, leading zeros included, by format(convert(v)) when they pass the gates and parse as an in-range v, and the whole token is written unchanged otherwise |
| Driver.Rewritten | main.go:62-84 | the output of the scan loop: the written chunk of each token, in token order |
| Driver.Rewrite | main.go:62-84 | the loop writes the chunks of the tokens, in order |
| Driver.RewrittenAppend | main.go:62-84 | the output of a concatenation of token sequences is the concatenation of their outputs |
| Driver.RewrittenIdentity | main.go:65-70 | with no number locations the output is the concatenation of the tokens |
| Driver.AppendKeepsLocs | main.go:72 | the slice bounds of both parts carry over to their concatenation |
| Driver.StaleNumberLocReplacesLiteral | main.go:65-72 | for range [0, 100] and input "01 00 ", the literal " 00 " keeps the stale location of "01" and is replaced by format(convert(0)) |
| Driver.CorrectedLiteralsPassThrough | main.go:65-72 | with the corrected splitter, every location lies inside its token, and a token without a non-zero digit is written unchanged |
| Driver.TruncDiv | main.go:149 | Go's / for a positive divisor: the quotient rounded toward zero, so the remainder left has the sign of the dividend and is smaller than the divisor |
| Driver.TruncMod | main.go:149 | Go's %: a == b*TruncDiv(a, b) + m, with m of the sign of a and abs(m) < b |
| Driver.MillisecondSplit | main.go:148-151 | seconds*10^9 + nanos == unix*10^6, abs(nanos) < 10^9, and nanos has the sign of unix (truncating / and %) |
| Driver.MillisecondSplitTruncates | main.go:149 | -1 ms splits into 0 s and -1000000 ns, and -1999 ms into -1 s and -999000000 ns |

## Left out

- Command-line parsing with kong and the `CLI` global (main.go:18-38, 48). These are configuration.
- `newTimeRange` and `newUnixRange` (main.go:105-137). They need `time.Now` and the time library. The range is a parameter of the matcher instead.
- The formatters and `timeFormat` (main.go:157-221), and `time.Unix` in both converters. They call into the time library, goment and `fmt`. The converter and the formatter are the parameters `convert` and `format` of the driver.
- `bufio.Scanner`, `bufio.Writer`, `io.MultiReader`, `os.Stdout`, `fatalLn` and `os.Exit` (main.go:55-56, 85-103, 223-226). These are I/O and process control. The reader's side of the growing-prefix protocol is the precondition of `Split`. Once `ErrFinalToken` is returned the scanner stops; the model returns a `final` flag and models nothing after it.
- The Go regexp engine. `Tokenizer.FindNumber` stands in for it.
- Chunk-boundary invariance. It does not hold: a match at offset 0 is returned even when it ends at the end of the buffer and more input may follow (main.go:286-287). Splitter.NumberCutAtBufferEnd shows a timestamp cut in two this way.
- Splitter.NumberSplitter.Split: the location slice that Go shifts in place (main.go:276-281) is a value. No aliasing is lost, because every scan returns a fresh slice.
- Driver.Rewrite and Driver.Rewritten: require every location to lie inside its token. In Go a stale location can reach past the token: the slice then reads the scanner's buffer beyond the token, up to its capacity, or panics. Both depend on bufio's buffer, which is not modelled.
- Driver.RewriteToken: same precondition as Driver.Rewrite, for the same reason.
- RangeMatcher.MatchCorrectedComplete: proved for non-negative ranges only. With a negative lower bound the length gate (main.go:335) also turns away in-range values, for example "7" in [-5, 100]; the corrected matcher keeps that gate as it is.
- Strconv.ParseInt: collapses the `*NumError` values (syntax and range errors) into None. Only base 10 and bit size 64 are modelled, which is what main.go:341 uses.

## Findings

| source | as written | input that shows it | evidently intended | confidence | as-written member | corrected member |
|---|---|---|---|---|---|---|
| main.go:314 | the prefix gate uses the longest common prefix of the bound texts even when their widths differ | range [1, 10] (for example `--from` 1970-01-01T00:00:01Z `--to` 1970-01-01T00:00:10Z) and candidate "5": prefix "1", so 5 is rejected although it is in range | `Match` turns away only slices that cannot be in range (main.go:332-333): no prefix gate when the widths differ | not executed; high that the gate rejects, medium that such ranges are used | RangeMatcher.MatchRejectsInRangeValue | RangeMatcher.MatcherForCorrected, RangeMatcher.MatchCorrectedComplete |
| main.go:65-72 | the driver tests `splitter.NumberLoc` for every token, but `Split` never clears it (main.go:249, 286), so a literal token is matched with the offsets of an earlier number | range [0, 100], input "01 00 " in one read: "01" is a number token, then the literal " 00 " still carries the location (0, 2, 1, 2), its byte "0" parses as 0 and is in range, and the whole literal is replaced | literal tokens are written unchanged; NumberLoc describes only the token just returned (main.go:235-237) | not executed; high for the trace. A range containing 0 is not needed: Go slices up to the capacity of bufio's buffer, so with the default range the input "0001613336683\n001613336683" gives the one-byte literal "\n" the stale location (0, 13, 3, 13), data[3:13] reads the digits that follow in the buffer, and the newline is replaced by a time. The model excludes that case (see Driver.Rewrite under Left out) | Driver.StaleNumberLocReplacesLiteral | Driver.CorrectedLiteralsPassThrough |
