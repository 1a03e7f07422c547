/** `robust_parse_dates` (app_final.py): every date token is stripped and
    resolved by the first strategy that succeeds, in a fixed order:
      1. pandas' lenient day-first parser (`format="mixed"`, or the plain
         day-first parser when `format="mixed"` raises);
      2. the five explicit formats of `Calendar.Formats`, each tried only on
         the positions still missing;
      3. pandas' default (month-first) parser over the whole column, used only
         to fill the positions still missing.
    The pandas parsers of stages 1 and 3 are parameters. `format="mixed"`
    parses each token on its own, but the calls without a format guess one
    format for the column from its first non-missing entry, so a token's
    result may depend on the rest of the column. Batch functions, returning
    one optional date per token, cover both: a per-token parser is a batch
    function that ignores the other tokens. */
module DateCascade {
  import opened Wrappers
  import opened Calendar
  import Text

  /** The spellings every pandas parser reads as a missing value, whatever
      its heuristics. */
  const NaTSpellings: set<string> := {"", "NaT", "nat", "NAT", "nan", "NaN", "NAN"}

  /** `t in NaTSpellings` under a name of its own, so that the `BatchParser`
      quantifier below can use it as a trigger. */
  predicate MissingSpelling(t: string) {
    t in NaTSpellings
  }

  /** The two words every pandas parser reads as the current time, before
      any format or heuristic. Named, like `MissingSpelling`, to serve as a
      trigger. */
  predicate ClockWord(t: string) {
    t == "now" || t == "today"
  }

  /** A pandas batch parser: one optional date per token, in order; nothing
      for a token spelled as a missing value, and some date for `now` and
      `today`. (The last two facts are used only where a proof names a token
      as such a spelling.) */
  type BatchParser = p: seq<string> -> seq<Option<Date>> |
    && (forall ts :: |p(ts)| == |ts|)
    && (forall ts, i {:trigger p(ts)[i], MissingSpelling(ts[i])} ::
          0 <= i < |ts| && MissingSpelling(ts[i]) ==> p(ts)[i].None?)
    && (forall ts, i {:trigger p(ts)[i], ClockWord(ts[i])} ::
          0 <= i < |ts| && ClockWord(ts[i]) ==> p(ts)[i].Some?)
    witness FixedClock

  /** A parser that knows no date but reads the clock words as one fixed day. */
  function FixedClock(ts: seq<string>): seq<Option<Date>> {
    seq(|ts|, i requires 0 <= i < |ts| => if ClockWord(ts[i]) then Some(Date(1970, 1, 1)) else None)
  }

  /** The pandas parsers the cascade calls. */
  datatype Library = Library(
    mixedRaises: seq<string> -> bool,  // whether `format="mixed"` raises on this column
    mixed: BatchParser,                // to_datetime(s, format="mixed", dayfirst=True, errors="coerce")
    dayFirst: BatchParser,             // to_datetime(s, errors="coerce", dayfirst=True)
    monthFirst: BatchParser            // to_datetime(s, errors="coerce")
  )

  /** `series.astype(str).str.strip()` */
  function StripAll(series: seq<string>): (s: seq<string>)
    ensures |s| == |series|
    ensures forall i :: 0 <= i < |series| ==> s[i] == Text.Strip(series[i])
  {
    seq(|series|, i requires 0 <= i < |series| => Text.Strip(series[i]))
  }

  /** Stage 1: the lenient day-first parse, with its exception fallback. */
  function FirstStage(lib: Library, s: seq<string>): (r: seq<Option<Date>>)
    ensures |r| == |s|
    ensures !lib.mixedRaises(s) ==> r == lib.mixed(s)
    ensures lib.mixedRaises(s) ==> r == lib.dayFirst(s)
  {
    if lib.mixedRaises(s) then lib.dayFirst(s) else lib.mixed(s)
  }

  /** What each strategy makes of token `i`, in priority order: stage 1, the
      five explicit formats, the final default parse. */
  function Candidates(lib: Library, s: seq<string>, i: nat): (c: seq<Option<Date>>)
    requires i < |s|
    ensures |c| == 2 + |Formats|
    ensures c[0] == FirstStage(lib, s)[i] && c[1 + |Formats|] == lib.monthFirst(s)[i]
    ensures forall k :: 0 <= k < |Formats| ==> c[k + 1] == ParseWith(Formats[k], s[i])
  {
    var first, last := FirstStage(lib, s)[i], lib.monthFirst(s)[i];
    seq(2 + |Formats|, j requires 0 <= j < 2 + |Formats| =>
      if j == 0 then first else if j <= |Formats| then ParseWith(Formats[j - 1], s[i]) else last)
  }

  /** The first present value of `c`: missing only when all are missing, and
      otherwise the value of the earliest strategy that succeeded. */
  function FirstSuccess(c: seq<Option<Date>>): (r: Option<Date>)
    ensures r.None? <==> forall k :: 0 <= k < |c| ==> c[k].None?
    ensures r.Some? ==> exists k :: 0 <= k < |c| && c[k] == r && forall j :: 0 <= j < k ==> c[j].None?
  {
    if c == [] then None
    else if c[0].Some? then c[0]
    else
      var r := FirstSuccess(c[1..]);
      assert forall k :: 1 <= k < |c| ==> c[k] == c[1..][k - 1];
      r
  }

  /** One more strategy, tried only when the earlier ones all failed. */
  lemma {:induction false} FirstSuccessSnoc(c: seq<Option<Date>>, x: Option<Date>)
    ensures FirstSuccess(c + [x]) == if FirstSuccess(c).Some? then FirstSuccess(c) else x
  {
    if c != [] {
      assert (c + [x])[1..] == c[1..] + [x];
      FirstSuccessSnoc(c[1..], x);
    }
  }

  /** Once a prefix of the strategies has succeeded, later ones do not matter. */
  lemma {:induction false} FirstSuccessPrefix(c: seq<Option<Date>>, n: nat)
    requires n <= |c| && FirstSuccess(c[..n]).Some?
    ensures FirstSuccess(c) == FirstSuccess(c[..n])
  {
    assert c[..n] != [] && c[..n][0] == c[0];
    if c[0].None? {
      assert c[..n][1..] == c[1..][..n - 1];
      FirstSuccessPrefix(c[1..], n - 1);
    }
  }

  /** What the first `n` strategies make of every token. */
  ghost predicate ResolvedBy(lib: Library, s: seq<string>, ps: seq<Option<Date>>, n: nat)
    requires n <= 2 + |Formats|
  {
    |ps| == |s| && forall i :: 0 <= i < |s| ==> ps[i] == FirstSuccess(Candidates(lib, s, i)[..n])
  }

  /** Stage 1 applies the first strategy. */
  lemma TryFirstStage(lib: Library, s: seq<string>)
    ensures ResolvedBy(lib, s, FirstStage(lib, s), 1)
  {
    forall i | 0 <= i < |s| ensures Candidates(lib, s, i)[..1] == [FirstStage(lib, s)[i]] { }
  }

  /** `parsed.loc[mask] = to_datetime(s.loc[mask], format=Formats[k])` with
      `mask` the missing positions: format `k`'s reading where nothing was
      found yet, the earlier result elsewhere. */
  function Refill(ps: seq<Option<Date>>, s: seq<string>, k: nat): (r: seq<Option<Date>>)
    requires |ps| == |s| && k < |Formats|
    ensures |r| == |ps|
    ensures forall i :: 0 <= i < |ps| && ps[i].Some? ==> r[i] == ps[i]
    ensures forall i :: 0 <= i < |ps| && ps[i].None? ==> r[i] == ParseWith(Formats[k], s[i])
  {
    seq(|ps|, i requires 0 <= i < |ps| => if ps[i].None? then ParseWith(Formats[k], s[i]) else ps[i])
  }

  /** Filling the missing positions with format `k` applies one more strategy. */
  lemma TryFormat(lib: Library, s: seq<string>, before: seq<Option<Date>>, k: nat)
    requires k < |Formats| && ResolvedBy(lib, s, before, k + 1)
    ensures ResolvedBy(lib, s, Refill(before, s, k), k + 2)
  {
    var after := Refill(before, s, k);
    forall i | 0 <= i < |s| ensures after[i] == FirstSuccess(Candidates(lib, s, i)[..k + 2]) {
      TryFormatAt(lib, s, i, k);
    }
  }

  /** The masked assignment, in place: only the positions `mask` selects
      change, each to format `k`'s reading of its token. */
  method ParseMasked(parsed: array<Option<Date>>, s: seq<string>, mask: seq<bool>, k: nat)
    requires k < |Formats| && parsed.Length == |s| && mask == MissingMask(parsed[..])
    modifies parsed
    ensures parsed[..] == Refill(old(parsed[..]), s, k)
  {
    var fmt := Formats[k];
    forall i | 0 <= i < parsed.Length && mask[i] {
      parsed[i] := ParseWith(fmt, s[i]);
    }
  }

  /** Format `k` on one token: consulted only when the strategies before it
      all failed. */
  lemma TryFormatAt(lib: Library, s: seq<string>, i: nat, k: nat)
    requires i < |s| && k < |Formats|
    ensures var b := FirstSuccess(Candidates(lib, s, i)[..k + 1]);
      FirstSuccess(Candidates(lib, s, i)[..k + 2]) == if b.None? then ParseWith(Formats[k], s[i]) else b
  {
    var c := Candidates(lib, s, i);
    PrefixSnoc(c, k + 1);
    FirstSuccessSnoc(c[..k + 1], c[k + 1]);
  }

  lemma PrefixSnoc<T>(c: seq<T>, n: nat)
    requires n < |c|
    ensures c[..n + 1] == c[..n] + [c[n]]
  {
  }

  lemma SplitLast<T>(c: seq<T>)
    requires c != []
    ensures c == c[..|c| - 1] + [c[|c| - 1]]
  {
  }

  /** Once nothing is missing, the remaining explicit formats change nothing. */
  lemma NothingMissing(lib: Library, s: seq<string>, ps: seq<Option<Date>>, n: nat)
    requires 1 <= n <= 1 + |Formats| && ResolvedBy(lib, s, ps, n) && !AnyMissing(ps)
    ensures ResolvedBy(lib, s, ps, 1 + |Formats|)
  {
    forall i | 0 <= i < |s| ensures ps[i] == FirstSuccess(Candidates(lib, s, i)[..1 + |Formats|]) {
      assert ps[i].Some?;
      SuccessKept(Candidates(lib, s, i), n, 1 + |Formats|);
    }
  }

  /** A success among the first `n` strategies stays the first success when
      more strategies follow. */
  lemma SuccessKept(c: seq<Option<Date>>, n: nat, m: nat)
    requires n <= m <= |c| && FirstSuccess(c[..n]).Some?
    ensures FirstSuccess(c[..m]) == FirstSuccess(c[..n])
  {
    assert c[..m][..n] == c[..n];
    FirstSuccessPrefix(c[..m], n);
  }

  /** Stage 3 completes the cascade: the default parse fills what is still
      missing, and when nothing is, the result is already final. */
  lemma TryFallback(lib: Library, series: seq<string>, s: seq<string>, ps: seq<Option<Date>>)
    requires s == StripAll(series)
    requires ResolvedBy(lib, s, ps, 1 + |Formats|)
    ensures (if AnyMissing(ps) then FillMissing(ps, lib.monthFirst(s)) else ps) == ParseDates(lib, series)
  {
    var after := if AnyMissing(ps) then FillMissing(ps, lib.monthFirst(s)) else ps;
    forall i | 0 <= i < |s| ensures after[i] == FirstSuccess(Candidates(lib, s, i)) {
      var c := Candidates(lib, s, i);
      SplitLast(c);
      FirstSuccessSnoc(c[..1 + |Formats|], c[1 + |Formats|]);
    }
  }

  /** The first present value is the one at the first index that holds one. */
  lemma {:induction false} FirstSuccessAt(c: seq<Option<Date>>, k: nat)
    requires k < |c| && c[k].Some?
    requires forall j :: 0 <= j < k ==> c[j].None?
    ensures FirstSuccess(c) == c[k]
  {
    if k > 0 {
      FirstSuccessAt(c[1..], k - 1);
    }
  }

  /** `robust_parse_dates` as a value: one result per token, each the first
      success among that token's strategies. */
  function ParseDates(lib: Library, series: seq<string>): (r: seq<Option<Date>>)
    ensures |r| == |series|
  {
    var s := StripAll(series);
    seq(|s|, i requires 0 <= i < |s| => FirstSuccess(Candidates(lib, s, i)))
  }

  /** `parsed.isna().any()` */
  predicate AnyMissing(ps: seq<Option<Date>>): (b: bool)
    ensures !b ==> forall i :: 0 <= i < |ps| ==> ps[i].Some?
  {
    exists i :: 0 <= i < |ps| && ps[i].None?
  }

  /** `parsed.isna()` */
  function MissingMask(ps: seq<Option<Date>>): (mask: seq<bool>)
    ensures |mask| == |ps|
    ensures forall i :: 0 <= i < |ps| ==> mask[i] == ps[i].None?
    ensures (true in mask) == AnyMissing(ps)
  {
    seq(|ps|, i requires 0 <= i < |ps| => ps[i].None?)
  }

  /** `parsed.fillna(fallback)`: the missing entries of `parsed` taken from
      `fallback`, the others kept. */
  function FillMissing(parsed: seq<Option<Date>>, fallback: seq<Option<Date>>): (r: seq<Option<Date>>)
    requires |fallback| == |parsed|
    ensures |r| == |parsed|
    ensures forall i :: 0 <= i < |parsed| && parsed[i].Some? ==> r[i] == parsed[i]
    ensures forall i :: 0 <= i < |parsed| && parsed[i].None? ==> r[i] == fallback[i]
  {
    seq(|parsed|, i requires 0 <= i < |parsed| => if parsed[i].Some? then parsed[i] else fallback[i])
  }

  /** A fresh array holding `values`. */
  method ArrayOf(values: seq<Option<Date>>) returns (a: array<Option<Date>>)
    ensures fresh(a) && a[..] == values
  {
    a := new Option<Date>[|values|](i requires 0 <= i < |values| => values[i]);
  }

  /** Stage 2: when stage 1 left gaps, each explicit format in turn fills
      the positions still missing, stopping early once none are. */
  method FormatStage(parsed: array<Option<Date>>, lib: Library, s: seq<string>)
    requires ResolvedBy(lib, s, parsed[..], 1)
    modifies parsed
    ensures ResolvedBy(lib, s, parsed[..], 1 + |Formats|)
  {
    if AnyMissing(parsed[..]) {
      FormatLoop(parsed, lib, s);
    } else {
      NothingMissing(lib, s, parsed[..], 1);
    }
  }

  /** The loop over the explicit formats, left once nothing is missing. */
  method FormatLoop(parsed: array<Option<Date>>, lib: Library, s: seq<string>)
    requires ResolvedBy(lib, s, parsed[..], 1)
    modifies parsed
    ensures ResolvedBy(lib, s, parsed[..], 1 + |Formats|)
  {
    var k := 0;
    while k < |Formats|
      invariant 0 <= k <= |Formats| && parsed.Length == |s|
      invariant ResolvedBy(lib, s, parsed[..], k + 1)  // stage 1 and the first k formats
    {
      var mask := MissingMask(parsed[..]);
      if !(true in mask) {
        NothingMissing(lib, s, parsed[..], k + 1);
        break;
      }
      ghost var before := parsed[..];
      ParseMasked(parsed, s, mask, k);
      TryFormat(lib, s, before, k);
      k := k + 1;
    }
  }

  /** The cascade, run as the source runs it: a column of results updated in
      place, format by format, on the positions still missing. */
  method RobustParseDates(series: seq<string>, lib: Library) returns (result: seq<Option<Date>>)
    ensures result == ParseDates(lib, series)
  {
    var s := StripAll(series);
    var first := FirstStage(lib, s);
    var parsed := ArrayOf(first);
    TryFirstStage(lib, s);

    FormatStage(parsed, lib, s);

    result := parsed[..];
    TryFallback(lib, series, s, result);
    if AnyMissing(result) {
      result := FillMissing(result, lib.monthFirst(s));
    }
  }

  /* ---------------- properties of the cascade ---------------- */

  /** First success wins: the strategy that decides a token is the first one
      that succeeds on it, whatever the later ones would have said. */
  lemma {:induction false} FirstSuccessWins(lib: Library, series: seq<string>, i: nat, k: nat)
    requires i < |series| && k < 2 + |Formats|
    requires Candidates(lib, StripAll(series), i)[k].Some?
    requires forall j :: 0 <= j < k ==> Candidates(lib, StripAll(series), i)[j].None?
    ensures ParseDates(lib, series)[i] == Candidates(lib, StripAll(series), i)[k]
  {
    var c := Candidates(lib, StripAll(series), i);
    assert ParseDates(lib, series)[i] == FirstSuccess(c);
    FirstSuccessAt(c, k);
  }

  /** A token stage 1 parsed keeps stage 1's date: no later strategy touches it. */
  lemma StageOneKept(lib: Library, series: seq<string>, i: nat)
    requires i < |series| && FirstStage(lib, StripAll(series))[i].Some?
    ensures ParseDates(lib, series)[i] == FirstStage(lib, StripAll(series))[i]
  {
    FirstSuccessWins(lib, series, i, 0);
  }

  /** `now` and `today` are always decided by stage 1, whichever of its two
      parsers runs, so they never reach the explicit formats. */
  lemma ClockWordStageOne(lib: Library, series: seq<string>, i: nat)
    requires i < |series| && ClockWord(Text.Strip(series[i]))
    ensures FirstStage(lib, StripAll(series))[i].Some?
    ensures ParseDates(lib, series)[i] == FirstStage(lib, StripAll(series))[i]
  {
    var s := StripAll(series);
    assert s[i] == Text.Strip(series[i]);
    assert ClockWord(s[i]);
    if lib.mixedRaises(s) {
      assert lib.dayFirst(s)[i].Some?;
    } else {
      assert lib.mixed(s)[i].Some?;
    }
    StageOneKept(lib, series, i);
  }

  /** An explicit format that reads a token decides it when stage 1 and
      every earlier format failed on it. */
  lemma FormatDecides(lib: Library, series: seq<string>, i: nat, k: nat, d: Date)
    requires i < |series| && k < |Formats|
    requires FirstStage(lib, StripAll(series))[i].None?
    requires forall j :: 0 <= j < k ==> ParseWith(Formats[j], Text.Strip(series[i])).None?
    requires ParseWith(Formats[k], Text.Strip(series[i])) == Some(d)
    ensures ParseDates(lib, series)[i] == Some(d)
  {
    var s := StripAll(series);
    var c := Candidates(lib, s, i);
    assert s[i] == Text.Strip(series[i]);
    EarlierStrategiesFail(lib, s, i, k);
    assert c[k + 1] == Some(d);
    FirstSuccessAt(c, k + 1);
    assert ParseDates(lib, series)[i] == FirstSuccess(c);
  }

  /** Stage 1 and the formats before `k` failing on a token imply that the
      first `k + 1` strategies fail on it. */
  lemma EarlierStrategiesFail(lib: Library, s: seq<string>, i: nat, k: nat)
    requires i < |s| && k < |Formats|
    requires FirstStage(lib, s)[i].None?
    requires forall j :: 0 <= j < k ==> ParseWith(Formats[j], s[i]).None?
    ensures forall j :: 0 <= j < k + 1 ==> Candidates(lib, s, i)[j].None?
  {
    var c := Candidates(lib, s, i);
    forall j | 0 <= j < k + 1 ensures c[j].None? {
      if j > 0 {
        assert c[j] == ParseWith(Formats[j - 1], s[i]);
      }
    }
  }

  /** The default parse is consulted only for tokens every other strategy
      failed on, and then its answer is the result. */
  lemma FallbackDecides(lib: Library, series: seq<string>, i: nat)
    requires i < |series|
    requires FirstStage(lib, StripAll(series))[i].None?
    requires forall j :: 0 <= j < |Formats| ==> ParseWith(Formats[j], StripAll(series)[i]).None?
    ensures ParseDates(lib, series)[i] == lib.monthFirst(StripAll(series))[i]
  {
    var s := StripAll(series);
    var c := Candidates(lib, s, i);
    EarlierStrategiesAllFail(lib, s, i);
    SplitLast(c);
    FirstSuccessSnoc(c[..1 + |Formats|], c[1 + |Formats|]);
  }

  /** When stage 1 and every format fail on a token, no strategy before the
      default parse succeeds. */
  lemma EarlierStrategiesAllFail(lib: Library, s: seq<string>, i: nat)
    requires i < |s| && FirstStage(lib, s)[i].None?
    requires forall j :: 0 <= j < |Formats| ==> ParseWith(Formats[j], s[i]).None?
    ensures FirstSuccess(Candidates(lib, s, i)[..1 + |Formats|]).None?
  {
    var c := Candidates(lib, s, i);
    var p := c[..1 + |Formats|];
    forall k | 0 <= k < |p| ensures p[k].None? {
      if k > 0 {
        assert p[k] == c[(k - 1) + 1] == ParseWith(Formats[k - 1], s[i]);
      }
    }
  }

  /** A token ends up missing exactly when every strategy fails on it. */
  lemma MissingExactlyWhenAllFail(lib: Library, series: seq<string>, i: nat)
    requires i < |series|
    ensures ParseDates(lib, series)[i].None? <==>
      && FirstStage(lib, StripAll(series))[i].None?
      && (forall j :: 0 <= j < |Formats| ==> ParseWith(Formats[j], StripAll(series)[i]).None?)
      && lib.monthFirst(StripAll(series))[i].None?
  {
    var s := StripAll(series);
    var c := Candidates(lib, s, i);
    assert ParseDates(lib, series)[i] == FirstSuccess(c);
    AllCandidatesFail(lib, s, i);
  }

  /** Every strategy fails on token `i` exactly when stage 1, each format and
      the default parse all fail on it. */
  lemma AllCandidatesFail(lib: Library, s: seq<string>, i: nat)
    requires i < |s|
    ensures (forall j :: 0 <= j < 2 + |Formats| ==> Candidates(lib, s, i)[j].None?) <==>
      && FirstStage(lib, s)[i].None?
      && (forall j :: 0 <= j < |Formats| ==> ParseWith(Formats[j], s[i]).None?)
      && lib.monthFirst(s)[i].None?
  {
    var c := Candidates(lib, s, i);
    var allFail := forall j :: 0 <= j < 2 + |Formats| ==> c[j].None?;
    var formatsFail := forall j :: 0 <= j < |Formats| ==> ParseWith(Formats[j], s[i]).None?;
    if allFail {
      forall j | 0 <= j < |Formats| ensures ParseWith(Formats[j], s[i]).None? {
        assert c[j + 1].None?;
      }
    }
    if FirstStage(lib, s)[i].None? && formatsFail && lib.monthFirst(s)[i].None? {
      forall j | 0 <= j < 2 + |Formats| ensures c[j].None? {
        if 0 < j < 1 + |Formats| {
          assert c[(j - 1) + 1] == ParseWith(Formats[j - 1], s[i]);
        }
      }
    }
  }

  /** A token spelled as a missing value (an empty or blank cell, or the
      `nan` that `astype(str)` writes for a cell the reader left empty) stays
      missing: no strategy reads a date from it. */
  lemma NaTSpellingMissing(lib: Library, series: seq<string>, i: nat)
    requires i < |series| && Text.Strip(series[i]) in NaTSpellings
    ensures ParseDates(lib, series)[i].None?
  {
    var s := StripAll(series);
    assert s[i] == Text.Strip(series[i]);
    NaTSpellingFormats(s[i]);
    assert MissingSpelling(s[i]);
    assert FirstStage(lib, s)[i].None? && lib.monthFirst(s)[i].None?;
    MissingExactlyWhenAllFail(lib, series, i);
  }

  /** No explicit format reads a missing-value spelling. */
  lemma NaTSpellingFormats(t: string)
    requires t in NaTSpellings
    ensures forall j :: 0 <= j < |Formats| ==> ParseWith(Formats[j], t).None?
  {
    assert '/' !in t && '-' !in t;
    forall j | 0 <= j < |Formats| ensures ParseWith(Formats[j], t).None? {
      FormatSeparators(j);
      WrongSeparator(Formats[j], t);
    }
  }

  /** A token of whitespace only is missing. */
  lemma BlankTokenMissing(lib: Library, series: seq<string>, i: nat)
    requires i < |series| && forall k :: 0 <= k < |series[i]| ==> Text.IsSpace(series[i][k])
    ensures ParseDates(lib, series)[i].None?
  {
    Text.StripBlank(series[i]);
    NaTSpellingMissing(lib, series, i);
  }

  /** A token written day-first with slashes (`15/01/2021`) that stage 1 could
      not read is read by the first explicit format. */
  lemma DayFirstSlashToken(lib: Library, series: seq<string>, i: nat, d: Date)
    requires i < |series| && IsValid(d) && InTimestampRange(d)
    requires Text.Strip(series[i]) == Render(Formats[0], d)
    requires FirstStage(lib, StripAll(series))[i].None?
    ensures ParseDates(lib, series)[i] == Some(d)
  {
    DayFirstSlashReadings(d);
    FormatDecides(lib, series, i, 0, d);
  }

  /** A month-first slash token whose day cannot be a month (day above 12)
      fails the day-first format and is read by the second one. */
  lemma MonthFirstSlashToken(lib: Library, series: seq<string>, i: nat, d: Date)
    requires i < |series| && IsValid(d) && InTimestampRange(d) && d.day > 12
    requires Text.Strip(series[i]) == Render(Formats[1], d)
    requires FirstStage(lib, StripAll(series))[i].None?
    ensures ParseDates(lib, series)[i] == Some(d)
  {
    var t := Text.Strip(series[i]);
    MonthFirstSlashReadings(d);
    forall j | 0 <= j < 1 ensures ParseWith(Formats[j], t).None? {
      assert j == 0;
    }
    FormatDecides(lib, series, i, 1, d);
  }

  /** An ISO token (`2021-01-15`) that stage 1 could not read fails both
      slash formats and is read by the third format. */
  lemma IsoToken(lib: Library, series: seq<string>, i: nat, d: Date)
    requires i < |series| && IsValid(d) && InTimestampRange(d)
    requires Text.Strip(series[i]) == Render(Formats[2], d)
    requires FirstStage(lib, StripAll(series))[i].None?
    ensures ParseDates(lib, series)[i] == Some(d)
  {
    var t := Text.Strip(series[i]);
    IsoReadings(d);
    forall j | 0 <= j < 2 ensures ParseWith(Formats[j], t).None? {
      assert j == 0 || j == 1;
    }
    FormatDecides(lib, series, i, 2, d);
  }

  /** The order of the formats matters: `03/04/2021` reads as 3 April under
      the first format and as 4 March under the second, and the cascade
      takes 3 April whenever stage 1 leaves the token to the formats. */
  lemma AmbiguousSlashToken(lib: Library, series: seq<string>, i: nat)
    requires i < |series| && Text.Strip(series[i]) == "03/04/2021"
    requires FirstStage(lib, StripAll(series))[i].None?
    ensures ParseWith(Formats[0], "03/04/2021") == Some(Date(2021, 4, 3))
    ensures ParseWith(Formats[1], "03/04/2021") == Some(Date(2021, 3, 4))
    ensures ParseDates(lib, series)[i] == Some(Date(2021, 4, 3))
  {
    AmbiguousReadings();
    DayFirstSlashToken(lib, series, i, Date(2021, 4, 3));
  }
}
