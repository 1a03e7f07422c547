/** The cleaning half of `load_data` (app_final.py): column names are
    normalised, `Sales` is coerced to a number and `Date` run through the date
    cascade, rows missing either are dropped, the rest are stably sorted by
    date, and `Region` is normalised and given a case-folded key. Reading the
    CSV file is outside the model: a table arrives as column names and rows of
    cells. */
module Loader {
  import opened Wrappers
  import opened Calendar
  import DateCascade
  import Text

  /** A CSV cell as the reader delivers it: its text, or `None` for a cell
      the reader took as missing (NaN). */
  type Cell = Option<string>

  /** `astype(str)`: a missing cell turns into the text "nan". */
  function AsText(c: Cell): (t: string)
    ensures c.Some? ==> t == c.value
    ensures c.None? ==> t == "nan"
  {
    match c
    case Some(t) => t
    case None => "nan"
  }

  /** A table as read: column names and rows of cells. */
  datatype Frame = Frame(columns: seq<string>, rows: seq<seq<Cell>>)

  /** Every row has one cell per column. */
  predicate WellFormed(f: Frame) {
    forall r :: r in f.rows ==> |r| == |f.columns|
  }

  /* ---------------- column names ---------------- */

  /** `c.strip().title()`: a title-cased name without surrounding whitespace
      that differs from `c` only in that whitespace and in letter case. */
  function NormalizeHeader(c: string): (h: string)
    ensures Text.IsStripped(h)
    ensures Text.Title(h) == h
    ensures Text.Casefold(h) == Text.Casefold(Text.Strip(c))
  {
    Text.TitleKeepsStripped(Text.Strip(c));
    Text.TitleIdempotent(Text.Strip(c));
    Text.CasefoldOfTitle(Text.Strip(c));
    Text.Title(Text.Strip(c))
  }

  /** Normalising a normalised name changes nothing. */
  lemma NormalizeHeaderIdempotent(c: string)
    ensures NormalizeHeader(NormalizeHeader(c)) == NormalizeHeader(c)
  {
    Text.StripStripped(NormalizeHeader(c));
  }

  /** Two names normalise alike exactly when they agree once stripped and
      case-folded: spellings that differ only in case and surrounding
      whitespace meet, and no others. */
  lemma HeaderVariants(x: string, y: string)
    ensures NormalizeHeader(x) == NormalizeHeader(y)
        <==> Text.Casefold(Text.Strip(x)) == Text.Casefold(Text.Strip(y))
  {
    Text.TitleOfCasefold(Text.Strip(x));
    Text.TitleOfCasefold(Text.Strip(y));
  }

  /** A word in any mix of cases, with any whitespace around it, becomes the
      word with its first letter in upper case and the rest in lower case. */
  lemma PaddedWord(a: string, w: string, b: string)
    requires Text.AllSpace(a) && Text.AllSpace(b)
    requires w != [] && forall i :: 0 <= i < |w| ==> Text.IsCased(w[i])
    ensures NormalizeHeader(a + w + b) == [Text.ToUpper(w[0])] + Text.Casefold(w[1..])
  {
    Text.StripPadded(a, w, b);
    Text.TitleWord(w);
  }

  /** `df.columns = [c.strip().title() for c in df.columns]` */
  function NormalizeHeaders(columns: seq<string>): (r: seq<string>)
    ensures |r| == |columns|
    ensures forall i :: 0 <= i < |columns| ==>
      && Text.IsStripped(r[i]) && Text.Title(r[i]) == r[i]
      && Text.Casefold(r[i]) == Text.Casefold(Text.Strip(columns[i]))
  {
    seq(|columns|, i requires 0 <= i < |columns| => NormalizeHeader(columns[i]))
  }

  /* ---------------- column lookup ---------------- */

  /** Why a column lookup fails: pandas raises `KeyError` for a column that
      is absent; a name held by several columns selects a frame rather than a
      series, and the series operations applied to it raise. */
  datatype LoadError = KeyError(column: string) | NotASeries(column: string)

  function FirstIndex(columns: seq<string>, name: string): (k: nat)
    requires name in columns
    ensures k < |columns| && columns[k] == name
    ensures forall i :: 0 <= i < k ==> columns[i] != name
  {
    if columns[0] == name then 0
    else
      1 + FirstIndex(columns[1..], name)
  }

  /** `df[name]`: the position of the one column called `name`, or the error
      the lookup raises. */
  function Column(columns: seq<string>, name: string): (r: Result<nat, LoadError>)
    ensures r.Ok? <==> name in columns && !HasDuplicate(columns, name)
    ensures r.Ok? ==> r.value < |columns| && columns[r.value] == name
    ensures r.Err? ==> r == if name !in columns then Err(KeyError(name)) else Err(NotASeries(name))
  {
    if name !in columns then Err(KeyError(name))
    else
      var k := FirstIndex(columns, name);
      if name in columns[k + 1..] then
        assert HasDuplicate(columns, name) by {
          var j :| 0 <= j < |columns[k + 1..]| && columns[k + 1..][j] == name;
          assert columns[k + 1 + j] == name;
        }
        Err(NotASeries(name))
      else
        assert !HasDuplicate(columns, name) by {
          forall i, j | 0 <= i < j < |columns| && columns[i] == name
            ensures columns[j] != name
          {
            assert columns[k + 1..][j - k - 1] == columns[j];
          }
        }
        Ok(k)
  }

  /** Two columns share the name. */
  predicate HasDuplicate(columns: seq<string>, name: string) {
    exists i, j :: 0 <= i < j < |columns| && columns[i] == name && columns[j] == name
  }

  /* ---------------- coercion and dropping ---------------- */

  /** A row after `Sales` and `Date` were coerced; `cells` is the row as read,
      from which the other columns pass through unchanged. */
  datatype Coerced = Coerced(date: Option<Date>, sales: Option<real>, cells: seq<Cell>)

  /** A row with both a date and a sales figure. */
  datatype Kept = Kept(date: Date, sales: real, cells: seq<Cell>)

  predicate Complete(c: Coerced) {
    c.date.Some? && c.sales.Some?
  }

  /** `pd.to_numeric(..., errors="coerce")` on one cell; the numeric parser
      itself is a parameter. */
  function ToNumber(toNumeric: string -> Option<real>, c: Cell): (r: Option<real>)
    ensures c.None? ==> r.None?
    ensures c.Some? ==> r == toNumeric(c.value)
  {
    match c
    case None => None
    case Some(t) => toNumeric(t)
  }

  /** `dropna(subset=["Sales", "Date"])`: a row is kept, with its values,
      exactly when both fields are present. */
  function DropIncomplete(rows: seq<Coerced>): (r: seq<Kept>)
    ensures |r| <= |rows|
    ensures forall k :: k in r <==> Coerced(Some(k.date), Some(k.sales), k.cells) in rows
  {
    if rows == [] then []
    else
      var rest := DropIncomplete(rows[1..]);
      assert forall c :: c in rows <==> c == rows[0] || c in rows[1..];
      if Complete(rows[0]) then [Kept(rows[0].date.value, rows[0].sales.value, rows[0].cells)] + rest
      else rest
  }

  /** Dropping works row by row, so it keeps the input order. */
  lemma {:induction false} DropConcat(a: seq<Coerced>, b: seq<Coerced>)
    ensures DropIncomplete(a + b) == DropIncomplete(a) + DropIncomplete(b)
  {
    if a == [] {
      assert a + b == b;
    } else {
      assert (a + b)[1..] == a[1..] + b;
      DropConcat(a[1..], b);
    }
  }

  /** A table whose rows are all complete loses nothing. */
  lemma {:induction false} DropComplete(rows: seq<Coerced>)
    requires forall i :: 0 <= i < |rows| ==> Complete(rows[i])
    ensures |DropIncomplete(rows)| == |rows|
  {
    if rows != [] {
      DropComplete(rows[1..]);
    }
  }

  /* ---------------- stable sort by date ---------------- */

  predicate SortedByDate(s: seq<Kept>) {
    forall i, j :: 0 <= i < j < |s| ==> NotAfter(s[i].date, s[j].date)
  }

  /** No row of `s` is dated earlier than `d`. */
  predicate NoneBefore(d: Date, s: seq<Kept>) {
    forall k :: 0 <= k < |s| ==> NotAfter(d, s[k].date)
  }

  lemma SortedCons(y: Kept, s: seq<Kept>)
    requires SortedByDate(s) && NoneBefore(y.date, s)
    ensures SortedByDate([y] + s)
  {
    forall i, j | 0 <= i < j < |[y] + s| ensures NotAfter(([y] + s)[i].date, ([y] + s)[j].date) {
      if i > 0 {
        assert ([y] + s)[i] == s[i - 1];
      }
      assert ([y] + s)[j] == s[j - 1];
    }
  }

  /** A bound on every row of `s` holds for any rearrangement of `s`. */
  lemma NoneBeforePermutation(d: Date, s: seq<Kept>, t: seq<Kept>)
    requires NoneBefore(d, s) && multiset(t) == multiset(s)
    ensures NoneBefore(d, t)
  {
    forall k | 0 <= k < |t| ensures NotAfter(d, t[k].date) {
      assert t[k] in multiset(s);
      var j :| 0 <= j < |s| && s[j] == t[k];
    }
  }

  /** The rows of `s` dated `d`, in their order in `s`. */
  function WithDate(s: seq<Kept>, d: Date): (r: seq<Kept>)
    ensures |r| <= |s|
    ensures forall k :: 0 <= k < |r| ==> r[k].date == d
  {
    if s == [] then []
    else (if s[0].date == d then [s[0]] else []) + WithDate(s[1..], d)
  }

  lemma WithDateCons(x: Kept, s: seq<Kept>, d: Date)
    ensures WithDate([x] + s, d) == (if x.date == d then [x] else []) + WithDate(s, d)
  {
    assert ([x] + s)[1..] == s;
  }

  /** Inserts `x` into a date-sorted sequence ahead of every row not earlier
      than it, that is, after the earlier rows only. */
  function InsertByDate(x: Kept, s: seq<Kept>): (r: seq<Kept>)
    requires SortedByDate(s)
    ensures SortedByDate(r)
    ensures multiset(r) == multiset(s) + multiset{x}
    ensures forall d :: WithDate(r, d) == (if x.date == d then [x] else []) + WithDate(s, d)
  {
    if s == [] || NotAfter(x.date, s[0].date) then
      InsertAhead(x, s);
      [x] + s
    else
      var rest := InsertByDate(x, s[1..]);
      InsertBehind(x, s, rest);
      [s[0]] + rest
  }

  lemma InsertAhead(x: Kept, s: seq<Kept>)
    requires SortedByDate(s) && (s == [] || NotAfter(x.date, s[0].date))
    ensures SortedByDate([x] + s)
    ensures forall d :: WithDate([x] + s, d) == (if x.date == d then [x] else []) + WithDate(s, d)
  {
    forall d ensures WithDate([x] + s, d) == (if x.date == d then [x] else []) + WithDate(s, d) {
      WithDateCons(x, s, d);
    }
    SortedCons(x, s);
  }

  /** Every row of `s[1..]` and `x` itself come no earlier than `s[0]`. */
  lemma HeadBoundsInsert(x: Kept, s: seq<Kept>, rest: seq<Kept>)
    requires SortedByDate(s) && s != [] && !NotAfter(x.date, s[0].date)
    requires multiset(rest) == multiset(s[1..]) + multiset{x}
    ensures NoneBefore(s[0].date, rest)
  {
    assert NoneBefore(s[0].date, s[1..] + [x]) by {
      forall k | 0 <= k < |s[1..] + [x]| ensures NotAfter(s[0].date, (s[1..] + [x])[k].date) {
        if k < |s| - 1 {
          assert (s[1..] + [x])[k] == s[k + 1];
        }
      }
    }
    NoneBeforePermutation(s[0].date, s[1..] + [x], rest);
  }

  lemma InsertBehind(x: Kept, s: seq<Kept>, rest: seq<Kept>)
    requires SortedByDate(s) && s != [] && !NotAfter(x.date, s[0].date)
    requires SortedByDate(rest) && multiset(rest) == multiset(s[1..]) + multiset{x}
    requires forall d :: WithDate(rest, d) == (if x.date == d then [x] else []) + WithDate(s[1..], d)
    ensures SortedByDate([s[0]] + rest)
    ensures multiset([s[0]] + rest) == multiset(s) + multiset{x}
    ensures forall d :: WithDate([s[0]] + rest, d) == (if x.date == d then [x] else []) + WithDate(s, d)
  {
    assert s == [s[0]] + s[1..];
    HeadBoundsInsert(x, s, rest);
    SortedCons(s[0], rest);
    InsertBehindOrder(x, s, rest);
  }

  lemma InsertBehindOrder(x: Kept, s: seq<Kept>, rest: seq<Kept>)
    requires s != [] && x.date != s[0].date
    requires forall d :: WithDate(rest, d) == (if x.date == d then [x] else []) + WithDate(s[1..], d)
    ensures forall d :: WithDate([s[0]] + rest, d) == (if x.date == d then [x] else []) + WithDate(s, d)
  {
    assert s == [s[0]] + s[1..];
    forall d ensures WithDate([s[0]] + rest, d) == (if x.date == d then [x] else []) + WithDate(s, d) {
      WithDateCons(s[0], rest, d);
      WithDateCons(s[0], s[1..], d);
    }
  }

  /** `sort_values("Date", kind="stable")`: sorted by date, a permutation of
      its input, and the rows of each date in their input order. */
  function SortByDate(s: seq<Kept>): (r: seq<Kept>)
    ensures SortedByDate(r)
    ensures multiset(r) == multiset(s)
    ensures forall d :: WithDate(r, d) == WithDate(s, d)
  {
    if s == [] then []
    else
      var r := InsertByDate(s[0], SortByDate(s[1..]));
      assert s == [s[0]] + s[1..];
      forall d ensures WithDate(r, d) == WithDate(s, d) {
        WithDateCons(s[0], s[1..], d);
      }
      r
  }

  /** Sorting a sorted table changes nothing. */
  lemma {:induction false} SortSorted(s: seq<Kept>)
    requires SortedByDate(s)
    ensures SortByDate(s) == s
  {
    if s != [] {
      SortSorted(s[1..]);
      assert s == [s[0]] + s[1..];
    }
  }

  /** In a sorted sequence no date occurs before the first row's. */
  lemma {:induction false} WithDateFirst(s: seq<Kept>, d: Date)
    requires SortedByDate(s) && s != [] && WithDate(s, d) != []
    ensures NotAfter(s[0].date, d)
  {
    if s[0].date != d {
      WithDateIn(s, d);
    }
  }

  lemma {:induction false} WithDateIn(s: seq<Kept>, d: Date)
    requires WithDate(s, d) != []
    ensures exists j :: 0 <= j < |s| && s[j].date == d
  {
    if s[0].date != d {
      WithDateIn(s[1..], d);
      var j :| 0 <= j < |s[1..]| && s[1..][j].date == d;
      assert s[j + 1].date == d;
    }
  }

  lemma WithDateHead(s: seq<Kept>)
    requires s != []
    ensures WithDate(s, s[0].date) != []
  {
    WithDateCons(s[0], s[1..], s[0].date);
    assert s == [s[0]] + s[1..];
  }

  /** Sortedness and per-date order pin the result down: a date-sorted
      sequence that keeps the rows of each date in the order of another one
      is that one, so the stable sort is the only sort with both properties. */
  lemma {:induction false} StableSortUnique(a: seq<Kept>, b: seq<Kept>)
    requires SortedByDate(a) && SortedByDate(b)
    requires forall d :: WithDate(a, d) == WithDate(b, d)
    ensures a == b
  {
    if a == [] || b == [] {
      if a != b {
        var c := if a == [] then b else a;
        WithDateHead(c);
        assert false;
      }
    } else {
      assert a == [a[0]] + a[1..] && b == [b[0]] + b[1..];
      var da, db := a[0].date, b[0].date;
      WithDateCons(a[0], a[1..], da);
      WithDateCons(b[0], b[1..], db);
      assert WithDate(a, da) == WithDate(b, da) && WithDate(a, db) == WithDate(b, db);
      WithDateFirst(a, db);
      WithDateFirst(b, da);
      assert da == db;
      assert WithDate(a, da)[0] == a[0] && WithDate(b, da)[0] == b[0];
      forall d ensures WithDate(a[1..], d) == WithDate(b[1..], d) {
        WithDateCons(a[0], a[1..], d);
        WithDateCons(b[0], b[1..], d);
        var p := if a[0].date == d then [a[0]] else [];
        assert WithDate(a, d) == WithDate(b, d);
        assert (p + WithDate(a[1..], d))[|p|..] == WithDate(a[1..], d);
        assert (p + WithDate(b[1..], d))[|p|..] == WithDate(b[1..], d);
      }
      StableSortUnique(a[1..], b[1..]);
    }
  }

  /* ---------------- regions ---------------- */

  /** A cleaned row. */
  datatype Record = Record(date: Date, sales: real, region: string, regionKey: string, cells: seq<Cell>)

  /** `astype(str).str.strip().str.title()` on a region cell. */
  function RegionName(raw: Cell): (name: string)
    ensures Text.IsStripped(name) && Text.Title(name) == name
  {
    NormalizeHeader(AsText(raw))
  }

  /** `str.casefold()` of the region name: the same as case-folding the
      stripped cell, so names differing only in case or surrounding
      whitespace share a key. */
  function RegionKey(raw: Cell): (key: string)
    ensures key == Text.Casefold(Text.Strip(AsText(raw)))
  {
    Text.Casefold(RegionName(raw))
  }

  /** The display name is the title-cased key. */
  lemma RegionNameFromKey(raw: Cell)
    ensures Text.Title(RegionKey(raw)) == RegionName(raw)
  {
    Text.TitleOfCasefold(RegionName(raw));
  }

  /** Two region cells share a key exactly when they share a display name. */
  lemma RegionKeyMatchesName(x: Cell, y: Cell)
    ensures RegionKey(x) == RegionKey(y) <==> RegionName(x) == RegionName(y)
  {
    HeaderVariants(AsText(x), AsText(y));
  }

  /** "north", " North" and "NORTH" get one key. */
  lemma NorthSpellings()
    ensures RegionKey(Some("north")) == RegionKey(Some(" North")) == RegionKey(Some("NORTH")) == "north"
  {
    LowerNorth();
    PaddedNorth();
    UpperNorth();
  }

  lemma LowerNorth()
    ensures RegionKey(Some("north")) == "north"
  {
    calc {
      RegionKey(Some("north"));
      Text.Casefold(Text.Strip("north"));
      { Text.StripStripped("north"); }
      Text.Casefold("north");
      "north";
    }
  }

  lemma PaddedNorth()
    ensures RegionKey(Some(" North")) == "north"
  {
    calc {
      RegionKey(Some(" North"));
      { assert " North" == " " + "North" + ""; Text.StripPadded(" ", "North", ""); }
      Text.Casefold("North");
      "north";
    }
  }

  lemma UpperNorth()
    ensures RegionKey(Some("NORTH")) == "north"
  {
    calc {
      RegionKey(Some("NORTH"));
      Text.Casefold(Text.Strip("NORTH"));
      { Text.StripStripped("NORTH"); }
      Text.Casefold("NORTH");
      "north";
    }
  }

  /** Adds the normalised region, taken from column `region`. */
  function WithRegion(k: Kept, region: nat): (r: Record)
    requires region < |k.cells|
  {
    Record(k.date, k.sales, RegionName(k.cells[region]), RegionKey(k.cells[region]), k.cells)
  }

  /* ---------------- the whole cleaning ---------------- */

  /** Where the three columns the loader needs sit. */
  datatype Layout = Layout(sales: nat, date: nat, region: nat)

  /** The lookups of lines 48, 49 and 51, in that order: the first column
      that is absent or not unique stops the load with its error. */
  function Locate(columns: seq<string>): (r: Result<Layout, LoadError>)
    ensures r.Ok? <==> Column(columns, "Sales").Ok? && Column(columns, "Date").Ok? && Column(columns, "Region").Ok?
    ensures r.Ok? ==> && r.value.sales < |columns| && columns[r.value.sales] == "Sales"
                      && r.value.date < |columns| && columns[r.value.date] == "Date"
                      && r.value.region < |columns| && columns[r.value.region] == "Region"
    ensures r.Err? ==> r.error == if Column(columns, "Sales").Err? then Column(columns, "Sales").error
                                 else if Column(columns, "Date").Err? then Column(columns, "Date").error
                                 else Column(columns, "Region").error
  {
    var sales :- Column(columns, "Sales");
    var date :- Column(columns, "Date");
    var region :- Column(columns, "Region");
    Ok(Layout(sales, date, region))
  }

  predicate Fits(f: Frame, l: Layout) {
    WellFormed(f) && l.sales < |f.columns| && l.date < |f.columns| && l.region < |f.columns|
  }

  /** Column `col` as `astype(str)` renders it. */
  function ColumnText(f: Frame, col: nat): (r: seq<string>)
    requires WellFormed(f) && col < |f.columns|
    ensures |r| == |f.rows|
    ensures forall i :: 0 <= i < |f.rows| ==> r[i] == AsText(f.rows[i][col])
  {
    seq(|f.rows|, i requires 0 <= i < |f.rows| => AsText(f.rows[i][col]))
  }

  /** Lines 48-49: each row with its numeric sales figure and its date. */
  function Coerce(f: Frame, dates: seq<Option<Date>>, toNumeric: string -> Option<real>, sales: nat)
    : (r: seq<Coerced>)
    requires WellFormed(f) && sales < |f.columns| && |dates| == |f.rows|
    ensures |r| == |f.rows|
    ensures forall i :: 0 <= i < |r| ==> r[i] == Coerced(dates[i], ToNumber(toNumeric, f.rows[i][sales]), f.rows[i])
  {
    seq(|f.rows|, i requires 0 <= i < |f.rows| => Coerced(dates[i], ToNumber(toNumeric, f.rows[i][sales]), f.rows[i]))
  }

  /** Dropping and sorting keep every row's cells as they were. */
  lemma KeptWidth(rows: seq<Coerced>, width: nat)
    requires forall i :: 0 <= i < |rows| ==> |rows[i].cells| == width
    ensures forall i :: 0 <= i < |SortByDate(DropIncomplete(rows))| ==> |SortByDate(DropIncomplete(rows))[i].cells| == width
  {
    var kept := DropIncomplete(rows);
    var sorted := SortByDate(kept);
    forall i | 0 <= i < |sorted| ensures |sorted[i].cells| == width {
      var k := sorted[i];
      assert k in multiset(kept);
      var c := Coerced(Some(k.date), Some(k.sales), k.cells);
      assert c in rows;
    }
  }

  /** A cleaned row without its region columns. */
  function Unregioned(r: seq<Record>): (s: seq<Kept>)
    ensures |s| == |r|
    ensures forall i :: 0 <= i < |r| ==> s[i] == Kept(r[i].date, r[i].sales, r[i].cells)
  {
    seq(|r|, i requires 0 <= i < |r| => Kept(r[i].date, r[i].sales, r[i].cells))
  }

  /** Row `i` of the table, cleaned, when it has both a date and a sales
      figure. */
  predicate CleanedFrom(x: Record, f: Frame, dates: seq<Option<Date>>, toNumeric: string -> Option<real>, l: Layout, i: int)
    requires Fits(f, l) && |dates| == |f.rows|
  {
    && 0 <= i < |f.rows|
    && dates[i] == Some(x.date)
    && ToNumber(toNumeric, f.rows[i][l.sales]) == Some(x.sales)
    && x.cells == f.rows[i]
    && x.region == RegionName(f.rows[i][l.region])
    && x.regionKey == RegionKey(f.rows[i][l.region])
  }

  /** Lines 48-52 once the columns are found and the dates parsed: the rows
      with both a date and a sales figure, each with its region name and
      key, ordered by date, rows of one date in their order in the file. */
  function Assemble(f: Frame, dates: seq<Option<Date>>, toNumeric: string -> Option<real>, l: Layout)
    : (r: seq<Record>)
    requires Fits(f, l) && |dates| == |f.rows|
    ensures forall i, j :: 0 <= i < j < |r| ==> NotAfter(r[i].date, r[j].date)
    ensures forall x :: x in r <==> exists i :: CleanedFrom(x, f, dates, toNumeric, l, i)
    ensures multiset(Unregioned(r)) == multiset(DropIncomplete(Coerce(f, dates, toNumeric, l.sales)))
    ensures forall d :: WithDate(Unregioned(r), d) == WithDate(DropIncomplete(Coerce(f, dates, toNumeric, l.sales)), d)
  {
    var coerced := Coerce(f, dates, toNumeric, l.sales);
    var sorted := SortByDate(DropIncomplete(coerced));
    KeptWidth(coerced, |f.columns|);
    var r := WithRegions(sorted, l.region);
    AssembledRows(f, dates, toNumeric, l, sorted, r);
    r
  }

  /** Lines 51-52 over the sorted rows: each gains its region name and key. */
  function WithRegions(sorted: seq<Kept>, region: nat): (r: seq<Record>)
    requires forall i :: 0 <= i < |sorted| ==> region < |sorted[i].cells|
    ensures |r| == |sorted| && Unregioned(r) == sorted
    ensures forall i :: 0 <= i < |sorted| ==> r[i] == WithRegion(sorted[i], region)
  {
    var r := seq(|sorted|, i requires 0 <= i < |sorted| => WithRegion(sorted[i], region));
    assert Unregioned(r) == sorted;
    r
  }

  lemma AssembledRows(f: Frame, dates: seq<Option<Date>>, toNumeric: string -> Option<real>, l: Layout,
                      sorted: seq<Kept>, r: seq<Record>)
    requires Fits(f, l) && |dates| == |f.rows|
    requires multiset(sorted) == multiset(DropIncomplete(Coerce(f, dates, toNumeric, l.sales)))
    requires |r| == |sorted|
    requires forall i :: 0 <= i < |sorted| ==> l.region < |sorted[i].cells| && r[i] == WithRegion(sorted[i], l.region)
    ensures forall x :: x in r <==> exists i :: CleanedFrom(x, f, dates, toNumeric, l, i)
  {
    forall x | x in r ensures exists i :: CleanedFrom(x, f, dates, toNumeric, l, i) {
      var j :| 0 <= j < |r| && r[j] == x;
      AssembledRowSource(f, dates, toNumeric, l, sorted, r, j);
    }
    forall x | exists i :: CleanedFrom(x, f, dates, toNumeric, l, i) ensures x in r {
      var i :| CleanedFrom(x, f, dates, toNumeric, l, i);
      CompleteRowAssembled(f, dates, toNumeric, l, sorted, r, x, i);
    }
  }

  lemma AssembledRowSource(f: Frame, dates: seq<Option<Date>>, toNumeric: string -> Option<real>, l: Layout,
                           sorted: seq<Kept>, r: seq<Record>, j: nat)
    requires Fits(f, l) && |dates| == |f.rows|
    requires multiset(sorted) == multiset(DropIncomplete(Coerce(f, dates, toNumeric, l.sales)))
    requires j < |r| == |sorted| && l.region < |sorted[j].cells| && r[j] == WithRegion(sorted[j], l.region)
    ensures exists i :: CleanedFrom(r[j], f, dates, toNumeric, l, i)
  {
    var coerced := Coerce(f, dates, toNumeric, l.sales);
    var k := sorted[j];
    assert k in multiset(DropIncomplete(coerced));
    var i := KeptSource(coerced, k);
    assert f.rows[i] == k.cells;
    assert CleanedFrom(r[j], f, dates, toNumeric, l, i);
  }

  /** The input position of a kept row. */
  lemma KeptSource(rows: seq<Coerced>, k: Kept) returns (i: nat)
    requires k in DropIncomplete(rows)
    ensures i < |rows| && rows[i] == Coerced(Some(k.date), Some(k.sales), k.cells)
  {
    assert Coerced(Some(k.date), Some(k.sales), k.cells) in rows;
    i :| 0 <= i < |rows| && rows[i] == Coerced(Some(k.date), Some(k.sales), k.cells);
  }

  lemma CompleteRowAssembled(f: Frame, dates: seq<Option<Date>>, toNumeric: string -> Option<real>, l: Layout,
                             sorted: seq<Kept>, r: seq<Record>, x: Record, i: int)
    requires Fits(f, l) && |dates| == |f.rows|
    requires multiset(sorted) == multiset(DropIncomplete(Coerce(f, dates, toNumeric, l.sales)))
    requires |r| == |sorted|
    requires forall i :: 0 <= i < |sorted| ==> l.region < |sorted[i].cells| && r[i] == WithRegion(sorted[i], l.region)
    requires CleanedFrom(x, f, dates, toNumeric, l, i)
    ensures x in r
  {
    var coerced := Coerce(f, dates, toNumeric, l.sales);
    var k := Kept(x.date, x.sales, x.cells);
    assert coerced[i] == Coerced(Some(k.date), Some(k.sales), k.cells);
    CompleteKept(coerced, i);
    assert k in multiset(sorted);
    var j :| 0 <= j < |sorted| && sorted[j] == k;
    assert x == WithRegion(k, l.region);
    assert r[j] == x;
  }

  /** A row with both a date and a sales figure survives the drop. */
  lemma CompleteKept(rows: seq<Coerced>, i: nat)
    requires i < |rows| && rows[i].date.Some? && rows[i].sales.Some?
    ensures Kept(rows[i].date.value, rows[i].sales.value, rows[i].cells) in DropIncomplete(rows)
  {
    assert rows[i] in rows;
  }

  /** A row whose Date cell the reader left empty is dropped: `astype(str)`
      writes it as `nan`, which every parser reads as missing. */
  lemma CleanedRowsHaveDateCell(f: Frame, lib: DateCascade.Library, toNumeric: string -> Option<real>, x: Record)
    requires WellFormed(f) && Clean(f, lib, toNumeric).Ok? && x in Clean(f, lib, toNumeric).value
    ensures var l := Locate(NormalizeHeaders(f.columns)).value;
      l.date < |x.cells| && x.cells[l.date].Some?
  {
    var l := Locate(NormalizeHeaders(f.columns)).value;
    var text := ColumnText(f, l.date);
    var dates := DateCascade.ParseDates(lib, text);
    var i :| CleanedFrom(x, f, dates, toNumeric, l, i);
    if f.rows[i][l.date].None? {
      assert text[i] == "nan";
      Text.StripStripped("nan");
      DateCascade.NaTSpellingMissing(lib, text, i);
    }
  }

  /** `load_data` after the file is read: the cleaned table, or the error of
      the first required column that is absent or not unique. Column names
      are normalised before the lookup. */
  function Clean(f: Frame, lib: DateCascade.Library, toNumeric: string -> Option<real>)
    : (r: Result<seq<Record>, LoadError>)
    requires WellFormed(f)
    ensures r.Err? <==> Locate(NormalizeHeaders(f.columns)).Err?
    ensures r.Err? ==> r.error == Locate(NormalizeHeaders(f.columns)).error
    ensures r.Ok? ==> var l := Locate(NormalizeHeaders(f.columns)).value;
      && Fits(f, l)
      && r.value == Assemble(f, DateCascade.ParseDates(lib, ColumnText(f, l.date)), toNumeric, l)
  {
    var l :- Locate(NormalizeHeaders(f.columns));
    Ok(Assemble(f, DateCascade.ParseDates(lib, ColumnText(f, l.date)), toNumeric, l))
  }

  /** `load_data` with the date column run through the imperative cascade. */
  method LoadData(f: Frame, lib: DateCascade.Library, toNumeric: string -> Option<real>)
    returns (r: Result<seq<Record>, LoadError>)
    requires WellFormed(f)
    ensures r == Clean(f, lib, toNumeric)
  {
    var located := Locate(NormalizeHeaders(f.columns));
    if located.Err? {
      return Err(located.error);
    }
    var l := located.value;
    var dates := DateCascade.RobustParseDates(ColumnText(f, l.date), lib);
    r := Ok(Assemble(f, dates, toNumeric, l));
  }
}
