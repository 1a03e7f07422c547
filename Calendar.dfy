/** Calendar dates and the five explicit date formats the date cascade tries
    (`%d/%m/%Y`, `%m/%d/%Y`, `%Y-%m-%d`, `%d-%m-%Y`, `%m-%d-%Y`), as pandas
    reads them with `to_datetime(..., format=fmt, errors="coerce")`: the
    whole token must match, day and month are one or two digits, the year is
    exactly four, and a field combination that is not a real date, or that a
    nanosecond pandas Timestamp cannot hold, becomes missing. */
module Calendar {
  import opened Wrappers

  datatype Date = Date(year: int, month: int, day: int)

  /** Gregorian leap years. */
  predicate IsLeapYear(y: int) {
    y % 4 == 0 && (y % 100 != 0 || y % 400 == 0)
  }

  function DaysInMonth(y: int, m: int): (n: int)
    requires 1 <= m <= 12
    ensures 28 <= n <= 31
    ensures n == 29 <==> m == 2 && IsLeapYear(y)
  {
    if m == 2 then (if IsLeapYear(y) then 29 else 28)
    else if m == 4 || m == 6 || m == 9 || m == 11 then 30
    else 31
  }

  /** A day that exists in the Gregorian calendar. */
  predicate IsValid(d: Date) {
    1 <= d.month <= 12 && 1 <= d.day <= DaysInMonth(d.year, d.month)
  }

  /** Chronological order: strictly earlier. */
  predicate Before(a: Date, b: Date) {
    a.year < b.year
    || (a.year == b.year && a.month < b.month)
    || (a.year == b.year && a.month == b.month && a.day < b.day)
  }

  /** Chronological order: earlier or the same day. */
  predicate NotAfter(a: Date, b: Date) {
    !Before(b, a)
  }

  /** The first and last midnights a nanosecond pandas Timestamp can hold
      (its range runs from 1677-09-21 00:12:43 to 2262-04-11 23:47:16). */
  const FirstDay := Date(1677, 9, 22)
  const LastDay := Date(2262, 4, 11)

  predicate InTimestampRange(d: Date) {
    NotAfter(FirstDay, d) && NotAfter(d, LastDay)
  }

  /* ---------------- digit fields ---------------- */

  predicate IsDigit(c: char) {
    '0' <= c <= '9'
  }

  predicate AllDigits(s: string) {
    forall k :: 0 <= k < |s| ==> IsDigit(s[k])
  }

  function DigitChar(n: nat): (c: char)
    requires n < 10
    ensures IsDigit(c)
  {
    ('0' as int + n) as char
  }

  /** The decimal value of a string of digits. */
  function DigitsValue(s: string): (n: nat)
    requires AllDigits(s)
    ensures n < Pow10(|s|)
  {
    if s == [] then 0
    else DigitsValue(s[..|s| - 1]) * 10 + (s[|s| - 1] as int - '0' as int)
  }

  function Pow10(k: nat): (p: nat)
    ensures p >= 1
  {
    if k == 0 then 1 else 10 * Pow10(k - 1)
  }

  /** A numeric field of `minLen` to `maxLen` digits, or missing. */
  function ParseField(s: string, minLen: nat, maxLen: nat): (r: Option<nat>)
    ensures r.Some? <==> minLen <= |s| <= maxLen && AllDigits(s)
    ensures r.Some? ==> r.value < Pow10(maxLen)
  {
    if minLen <= |s| <= maxLen && AllDigits(s) then
      assert Pow10(|s|) <= Pow10(maxLen) by { Pow10Monotone(|s|, maxLen); }
      Some(DigitsValue(s))
    else None
  }

  lemma {:induction false} Pow10Monotone(a: nat, b: nat)
    requires a <= b
    ensures Pow10(a) <= Pow10(b)
  {
    if a < b {
      Pow10Monotone(a, b - 1);
    }
  }

  /** A two-digit, zero-padded rendering (`%d`, `%m` in strftime). */
  function Pad2(n: nat): (s: string)
    requires n < 100
    ensures |s| == 2 && AllDigits(s) && DigitsValue(s) == n
  {
    var s := [DigitChar(n / 10), DigitChar(n % 10)];
    assert s[..1] == [DigitChar(n / 10)];
    s
  }

  /** A four-digit, zero-padded rendering (`%Y` in strftime): the hundreds,
      then the rest, each on two digits. */
  function Pad4(n: nat): (s: string)
    requires n < 10000
    ensures |s| == 4 && AllDigits(s) && DigitsValue(s) == n
  {
    var hi, lo := Pad2(n / 100), Pad2(n % 100);
    DigitsAppend2(hi, lo);
    hi + lo
  }

  /** Two more digits shift the value by two places. */
  lemma DigitsAppend2(a: string, b: string)
    requires AllDigits(a) && AllDigits(b) && |b| == 2
    ensures AllDigits(a + b) && DigitsValue(a + b) == DigitsValue(a) * 100 + DigitsValue(b)
  {
    var ab := a + b;
    assert ab[..|ab| - 1] == a + [b[0]];
    assert (a + [b[0]])[..|a|] == a;
    assert b[..1] == [b[0]] && [b[0]][..0] == [];
  }

  /* ---------------- splitting on a separator ---------------- */

  /** `sep` joined between consecutive parts. */
  function Join(parts: seq<string>, sep: char): string
    requires |parts| >= 1
  {
    if |parts| == 1 then parts[0] else parts[0] + [sep] + Join(parts[1..], sep)
  }

  /** The pieces of `s` between occurrences of `sep`; none of them holds `sep`. */
  function Split(s: string, sep: char): (r: seq<string>)
    ensures |r| >= 1
    ensures forall k :: 0 <= k < |r| ==> sep !in r[k]
  {
    if s == [] then [[]]
    else
      var rest := Split(s[1..], sep);
      if s[0] == sep then [[]] + rest
      else [[s[0]] + rest[0]] + rest[1..]
  }

  /** Splitting loses nothing: joining the pieces gives the string back. */
  lemma {:induction false} JoinSplit(s: string, sep: char)
    ensures Join(Split(s, sep), sep) == s
  {
    if s != [] {
      var rest := Split(s[1..], sep);
      JoinSplit(s[1..], sep);
      if s[0] == sep {
        assert Split(s, sep)[1..] == rest;
      } else if |rest| > 1 {
        assert Split(s, sep)[1..] == rest[1..];
      }
    }
  }

  /** Joining parts free of `sep` and splitting again gives the parts back. */
  lemma {:induction false} SplitJoin(parts: seq<string>, sep: char)
    requires |parts| >= 1
    requires forall k :: 0 <= k < |parts| ==> sep !in parts[k]
    ensures Split(Join(parts, sep), sep) == parts
  {
    if |parts| == 1 {
      SplitFree(parts[0], sep);
    } else {
      SplitJoin(parts[1..], sep);
      SplitPrefix(parts[0], Join(parts[1..], sep), sep);
    }
  }

  lemma {:induction false} SplitFree(s: string, sep: char)
    requires sep !in s
    ensures Split(s, sep) == [s]
  {
    if s != [] {
      SplitFree(s[1..], sep);
      assert [s[0]] + s[1..] == s;
    }
  }

  lemma {:induction false} SplitPrefix(a: string, rest: string, sep: char)
    requires sep !in a
    ensures Split(a + [sep] + rest, sep) == [a] + Split(rest, sep)
  {
    if a == [] {
      assert ([sep] + rest)[1..] == rest;
    } else {
      assert (a + [sep] + rest)[1..] == a[1..] + [sep] + rest;
      SplitPrefix(a[1..], rest, sep);
      assert [a[0]] + a[1..] == a;
    }
  }

  /* ---------------- explicit formats ---------------- */

  datatype FieldOrder = DayMonthYear | MonthDayYear | YearMonthDay

  /** An explicit date format: three numeric fields in a fixed order with
      one separator character between them. */
  datatype Format = Format(order: FieldOrder, sep: char)

  /** The formats in the order the cascade tries them. */
  const Formats: seq<Format> := [
    Format(DayMonthYear, '/'),  // %d/%m/%Y
    Format(MonthDayYear, '/'),  // %m/%d/%Y
    Format(YearMonthDay, '-'),  // %Y-%m-%d
    Format(DayMonthYear, '-'),  // %d-%m-%Y
    Format(MonthDayYear, '-')   // %m-%d-%Y
  ]

  /** The three fields of a split token as (year, month, day) texts. */
  function Arrange(order: FieldOrder, a: string, b: string, c: string): (string, string, string) {
    match order
    case DayMonthYear => (c, b, a)
    case MonthDayYear => (c, a, b)
    case YearMonthDay => (a, b, c)
  }

  /** The date `token` denotes in format `f`, or missing when the token does
      not match the format or names no representable day. */
  function ParseWith(f: Format, token: string): (r: Option<Date>)
    ensures r.Some? ==> IsValid(r.value) && InTimestampRange(r.value)
  {
    var parts := Split(token, f.sep);
    if |parts| != 3 then None
    else
      var (y, m, d) := Arrange(f.order, parts[0], parts[1], parts[2]);
      match (ParseField(y, 4, 4), ParseField(m, 1, 2), ParseField(d, 1, 2))
      case (Some(year), Some(month), Some(day)) =>
        var date := Date(year, month, day);
        if IsValid(date) && InTimestampRange(date) then Some(date) else None
      case _ => None
  }

  /** A date written in format `f` with zero padding (strftime). */
  function Render(f: Format, d: Date): string
    requires IsValid(d) && 0 <= d.year < 10000
  {
    var (y, m, dd) := (Pad4(d.year), Pad2(d.month), Pad2(d.day));
    match f.order
    case DayMonthYear => Join([dd, m, y], f.sep)
    case MonthDayYear => Join([m, dd, y], f.sep)
    case YearMonthDay => Join([y, m, dd], f.sep)
  }

  /** Every representable date survives being written in an explicit format
      and read back with the same format. */
  lemma RenderParse(f: Format, d: Date)
    requires !IsDigit(f.sep)
    requires IsValid(d) && InTimestampRange(d)
    ensures ParseWith(f, Render(f, d)) == Some(d)
  {
    var (y, m, dd) := (Pad4(d.year), Pad2(d.month), Pad2(d.day));
    assert f.sep !in y && f.sep !in m && f.sep !in dd;
    match f.order
    case DayMonthYear => SplitJoin([dd, m, y], f.sep);
    case MonthDayYear => SplitJoin([m, dd, y], f.sep);
    case YearMonthDay => SplitJoin([y, m, dd], f.sep);
  }

  /** The separators of the five formats are not digits. */
  lemma FormatSeparators(k: nat)
    requires k < |Formats|
    ensures !IsDigit(Formats[k].sep)
    ensures Formats[k].sep == '/' || Formats[k].sep == '-'
  {
  }

  lemma JoinThree(a: string, b: string, c: string, sep: char)
    ensures Join([a, b, c], sep) == a + [sep] + b + [sep] + c
  {
    assert [a, b, c][1..] == [b, c];
    assert [b, c][1..] == [c];
    assert Join([b, c], sep) == b + [sep] + c;
    assert a + [sep] + (b + [sep] + c) == a + [sep] + b + [sep] + c;
  }

  /** A rendered date holds only digits and the format's separator. */
  lemma RenderChars(f: Format, d: Date)
    requires IsValid(d) && 0 <= d.year < 10000
    ensures forall k :: 0 <= k < |Render(f, d)| ==> IsDigit(Render(f, d)[k]) || Render(f, d)[k] == f.sep
  {
    var (y, m, dd) := (Pad4(d.year), Pad2(d.month), Pad2(d.day));
    match f.order
    case DayMonthYear => JoinThree(dd, m, y, f.sep);
    case MonthDayYear => JoinThree(m, dd, y, f.sep);
    case YearMonthDay => JoinThree(y, m, dd, f.sep);
  }

  /** A token a format accepts holds only digits and that format's separator. */
  lemma ParsedTokenShape(f: Format, token: string)
    requires ParseWith(f, token).Some?
    ensures forall k :: 0 <= k < |token| ==> IsDigit(token[k]) || token[k] == f.sep
  {
    var parts := Split(token, f.sep);
    JoinSplit(token, f.sep);
    JoinThree(parts[0], parts[1], parts[2], f.sep);
    assert parts == [parts[0], parts[1], parts[2]];
    assert AllDigits(parts[0]) && AllDigits(parts[1]) && AllDigits(parts[2]);
  }

  /** A token without the format's separator does not match the format. */
  lemma WrongSeparator(f: Format, token: string)
    requires f.sep !in token
    ensures ParseWith(f, token) == None
  {
    SplitFree(token, f.sep);
  }

  /** A month-first token whose day is above 12 does not match the day-first
      format with the same separator: its day would be read as a month. */
  lemma SwappedFieldsRejected(sep: char, d: Date)
    requires !IsDigit(sep) && IsValid(d) && InTimestampRange(d) && d.day > 12
    ensures ParseWith(Format(DayMonthYear, sep), Render(Format(MonthDayYear, sep), d)) == None
  {
    var (y, m, dd) := (Pad4(d.year), Pad2(d.month), Pad2(d.day));
    assert sep !in y && sep !in m && sep !in dd;
    SplitJoin([m, dd, y], sep);
  }

  /** How the five formats, in order, read each kind of rendered date. */
  lemma DayFirstSlashReadings(d: Date)
    requires IsValid(d) && InTimestampRange(d)
    ensures ParseWith(Formats[0], Render(Formats[0], d)) == Some(d)
  {
    RenderParse(Formats[0], d);
  }

  lemma MonthFirstSlashReadings(d: Date)
    requires IsValid(d) && InTimestampRange(d) && d.day > 12
    ensures ParseWith(Formats[0], Render(Formats[1], d)) == None
    ensures ParseWith(Formats[1], Render(Formats[1], d)) == Some(d)
  {
    SwappedFieldsRejected('/', d);
    RenderParse(Formats[1], d);
  }

  lemma IsoReadings(d: Date)
    requires IsValid(d) && InTimestampRange(d)
    ensures ParseWith(Formats[0], Render(Formats[2], d)) == None
    ensures ParseWith(Formats[1], Render(Formats[2], d)) == None
    ensures ParseWith(Formats[2], Render(Formats[2], d)) == Some(d)
  {
    RenderChars(Formats[2], d);
    WrongSeparator(Formats[0], Render(Formats[2], d));
    WrongSeparator(Formats[1], Render(Formats[2], d));
    RenderParse(Formats[2], d);
  }

  /** `03/04/2021` is 3 April day-first and 4 March month-first. */
  lemma AmbiguousReadings()
    ensures Render(Formats[0], Date(2021, 4, 3)) == "03/04/2021"
    ensures ParseWith(Formats[0], "03/04/2021") == Some(Date(2021, 4, 3))
    ensures ParseWith(Formats[1], "03/04/2021") == Some(Date(2021, 3, 4))
  {
    AmbiguousRendering();
    RenderParse(Formats[0], Date(2021, 4, 3));
    RenderParse(Formats[1], Date(2021, 3, 4));
  }

  lemma AmbiguousRendering()
    ensures Render(Formats[0], Date(2021, 4, 3)) == "03/04/2021"
    ensures Render(Formats[1], Date(2021, 3, 4)) == "03/04/2021"
  {
    PadsOf2021();
    JoinThree("03", "04", "2021", '/');
  }

  lemma PadsOf2021()
    ensures Pad2(3) == "03" && Pad2(4) == "04" && Pad4(2021) == "2021"
  {
    assert Pad2(3) == [DigitChar(0), DigitChar(3)] == "03";
    assert Pad2(4) == [DigitChar(0), DigitChar(4)] == "04";
    Year2021();
  }

  lemma Year2021()
    ensures Pad4(2021) == "2021"
  {
    assert Pad2(20) == [DigitChar(2), DigitChar(0)];
    assert Pad2(21) == [DigitChar(2), DigitChar(1)];
  }
}
