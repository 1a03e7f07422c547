/** The region selector of the dashboard (app_final.py): the dropdown
    options built from the cleaned table's region keys, and the rows and
    chart title `update_graph` produces for the selected value. */
module Regions {
  import opened Wrappers
  import opened Calendar
  import Text
  import Loader

  /* ---------------- string order ---------------- */

  /** Python's `<` on `str`: lexicographic by code point, a proper prefix
      before any extension of it. */
  predicate StrLt(a: string, b: string): (r: bool)
    ensures r <==> exists k :: LessAt(a, b, k)
  {
    if a == [] then
      assert b != [] ==> LessAt(a, b, 0);
      b != []
    else if b == [] then false
    else
      var rest := StrLt(a[1..], b[1..]);
      LessAtStep(a, b);
      a[0] < b[0] || (a[0] == b[0] && rest)
  }

  /** `a` and `b` agree before position `k`, and there `a` has run out while
      `b` goes on, or `a` has the smaller character. */
  predicate LessAt(a: string, b: string, k: int) {
    && 0 <= k <= |a| && k <= |b| && a[..k] == b[..k]
    && ((k == |a| && k < |b|) || (k < |a| && k < |b| && a[k] < b[k]))
  }

  lemma LessAtStep(a: string, b: string)
    requires a != [] && b != []
    ensures (exists k :: LessAt(a, b, k)) <==>
              a[0] < b[0] || (a[0] == b[0] && exists k :: LessAt(a[1..], b[1..], k))
  {
    if k :| LessAt(a, b, k) {
      if k > 0 {
        assert a[0] == a[..k][0] == b[..k][0] == b[0];
        assert a[1..][..k - 1] == a[..k][1..] && b[1..][..k - 1] == b[..k][1..];
        assert LessAt(a[1..], b[1..], k - 1);
      }
    }
    if a[0] < b[0] {
      assert LessAt(a, b, 0);
    } else if a[0] == b[0] && exists k :: LessAt(a[1..], b[1..], k) {
      var k :| LessAt(a[1..], b[1..], k);
      assert a[..k + 1] == [a[0]] + a[1..][..k] && b[..k + 1] == [b[0]] + b[1..][..k];
      assert LessAt(a, b, k + 1);
    }
  }

  lemma {:induction false} StrLtIrreflexive(a: string)
    ensures !StrLt(a, a)
  {
    if a != [] {
      StrLtIrreflexive(a[1..]);
    }
  }

  lemma {:induction false} StrLtTransitive(a: string, b: string, c: string)
    requires StrLt(a, b) && StrLt(b, c)
    ensures StrLt(a, c)
  {
    if a != [] && a[0] == b[0] && b[0] == c[0] {
      StrLtTransitive(a[1..], b[1..], c[1..]);
    }
  }

  lemma {:induction false} StrLtTotal(a: string, b: string)
    requires a != b
    ensures StrLt(a, b) || StrLt(b, a)
  {
    if a != [] && b != [] && a[0] == b[0] {
      assert a == [a[0]] + a[1..] && b == [b[0]] + b[1..];
      StrLtTotal(a[1..], b[1..]);
    }
  }

  /** Strictly increasing, hence free of duplicates. */
  predicate StrictlySorted(s: seq<string>) {
    forall i, j :: 0 <= i < j < |s| ==> StrLt(s[i], s[j])
  }

  /** Every element of `s` comes after `k`. */
  predicate AllAfter(k: string, s: seq<string>) {
    forall i :: 0 <= i < |s| ==> StrLt(k, s[i])
  }

  lemma SortedConsKey(k: string, s: seq<string>)
    requires StrictlySorted(s) && AllAfter(k, s)
    ensures StrictlySorted([k] + s)
  {
    forall i, j | 0 <= i < j < |[k] + s| ensures StrLt(([k] + s)[i], ([k] + s)[j]) {
      if i > 0 {
        assert ([k] + s)[i] == s[i - 1];
      }
      assert ([k] + s)[j] == s[j - 1];
    }
  }

  /* ---------------- region options ---------------- */

  /** Adds `k` to a strictly sorted sequence of keys, unless it is there. */
  function InsertKey(k: string, s: seq<string>): (r: seq<string>)
    requires StrictlySorted(s)
    ensures StrictlySorted(r)
    ensures forall x :: x in r <==> x == k || x in s
  {
    if s == [] then [k]
    else if k == s[0] then s
    else if StrLt(k, s[0]) then
      assert AllAfter(k, s) by {
        forall i | 0 <= i < |s| ensures StrLt(k, s[i]) {
          if i > 0 {
            StrLtTransitive(k, s[0], s[i]);
          }
        }
      }
      SortedConsKey(k, s);
      [k] + s
    else
      var rest := InsertKey(k, s[1..]);
      StrLtTotal(k, s[0]);
      assert forall x :: x in s <==> x == s[0] || x in s[1..] by {
        assert s == [s[0]] + s[1..];
      }
      assert AllAfter(s[0], rest) by {
        forall i | 0 <= i < |rest| ensures StrLt(s[0], rest[i]) {
          if rest[i] != k {
            assert rest[i] in rest;
            var j :| 0 <= j < |s[1..]| && s[1..][j] == rest[i];
            assert s[j + 1] == rest[i];
          }
        }
      }
      SortedConsKey(s[0], rest);
      [s[0]] + rest
  }

  /** `sorted(keys.unique())`: the distinct keys, in increasing order. */
  function SortedUnique(keys: seq<string>): (r: seq<string>)
    ensures StrictlySorted(r)
    ensures forall x :: x in r <==> x in keys
  {
    if keys == [] then []
    else
      assert forall x :: x in keys <==> x == keys[0] || x in keys[1..] by {
        assert keys == [keys[0]] + keys[1..];
      }
      InsertKey(keys[0], SortedUnique(keys[1..]))
  }

  /** There is only one strictly sorted arrangement of a set of keys, so
      `SortedUnique` is the list Python's `sorted` builds. */
  lemma {:induction false} StrictlySortedUnique(a: seq<string>, b: seq<string>)
    requires StrictlySorted(a) && StrictlySorted(b)
    requires forall x :: x in a <==> x in b
    ensures a == b
  {
    assert a != [] ==> a[0] in b;
    assert b != [] ==> b[0] in a;
    if a != [] && b != [] {
      assert a[0] == b[0] by {
        if a[0] != b[0] {
          assert a[0] in b && b[0] in a;
          var i :| 0 <= i < |b| && b[i] == a[0];
          var j :| 0 <= j < |a| && a[j] == b[0];
          StrLtTransitive(a[0], b[0], a[0]);
          StrLtIrreflexive(a[0]);
        }
      }
      forall x ensures x in a[1..] <==> x in b[1..] {
        if x in a[1..] {
          TailMember(a, b, x);
        }
        if x in b[1..] {
          TailMember(b, a, x);
        }
      }
      StrictlySortedUnique(a[1..], b[1..]);
    }
  }

  /** Past a shared first key, a key of one strictly sorted list is a key of
      the other's tail. */
  lemma TailMember(a: seq<string>, b: seq<string>, x: string)
    requires StrictlySorted(a) && a != [] && b != [] && a[0] == b[0]
    requires forall y :: y in a <==> y in b
    requires x in a[1..]
    ensures x in b[1..]
  {
    var i :| 0 <= i < |a[1..]| && a[1..][i] == x;
    assert StrLt(a[0], a[i + 1]);
    StrLtIrreflexive(x);
    assert x in b && x != b[0];
    var k :| 0 <= k < |b| && b[k] == x;
    assert b[1..][k - 1] == x;
  }

  /** The region keys of the table, in table order. */
  function Keys(table: seq<Loader.Record>): (r: seq<string>)
    ensures |r| == |table|
    ensures forall i :: 0 <= i < |table| ==> r[i] == table[i].regionKey
  {
    seq(|table|, i requires 0 <= i < |table| => table[i].regionKey)
  }

  /** One entry of the dropdown. */
  datatype RegionOption = RegionOption(caption: string, value: string)

  /** The sentinel value meaning "every region". */
  const AllValue := "all"

  /** The dropdown: one option per distinct key, in increasing key order,
      labelled with the title-cased key, then the "All" option. */
  function RegionOptions(table: seq<Loader.Record>): (r: seq<RegionOption>)
    ensures |r| >= 1 && r[|r| - 1] == RegionOption("All", AllValue)
    ensures StrictlySorted(seq(|r| - 1, i requires 0 <= i < |r| - 1 => r[i].value))
    ensures forall i :: 0 <= i < |r| - 1 ==> r[i].caption == Text.Title(r[i].value)
    ensures forall k :: (exists i :: 0 <= i < |r| - 1 && r[i].value == k) <==> k in Keys(table)
  {
    var keys := SortedUnique(Keys(table));
    var r := seq(|keys|, i requires 0 <= i < |keys| => RegionOption(Text.Title(keys[i]), keys[i])) + [RegionOption("All", AllValue)];
    assert seq(|r| - 1, i requires 0 <= i < |r| - 1 => r[i].value) == keys;
    forall k ensures (exists i :: 0 <= i < |r| - 1 && r[i].value == k) <==> k in Keys(table) {
      if k in keys {
        var i :| 0 <= i < |keys| && keys[i] == k;
        assert r[i].value == k;
      }
    }
    r
  }

  /* ---------------- the selected rows ---------------- */

  /** A row whose region columns are as the loader leaves them: the key is
      the case-folded name and the name is title-cased. */
  predicate Normalized(x: Loader.Record) {
    x.regionKey == Text.Casefold(x.region) && Text.Title(x.region) == x.region
  }

  /** Every row the loader produces is normalised. */
  lemma CleanedNormalized(f: Loader.Frame, dates: seq<Option<Date>>, toNumeric: string -> Option<real>,
                          l: Loader.Layout, x: Loader.Record)
    requires Loader.Fits(f, l) && |dates| == |f.rows|
    requires x in Loader.Assemble(f, dates, toNumeric, l)
    ensures Normalized(x)
  {
    var i :| Loader.CleanedFrom(x, f, dates, toNumeric, l, i);
  }

  /** An option's label is the region name its rows show in the chart. */
  lemma OptionLabelIsRegion(table: seq<Loader.Record>, i: int, x: Loader.Record)
    requires forall y :: y in table ==> Normalized(y)
    requires 0 <= i < |RegionOptions(table)| - 1 && x in table
    requires x.regionKey == RegionOptions(table)[i].value
    ensures RegionOptions(table)[i].caption == x.region
  {
    Text.TitleOfCasefold(x.region);
  }

  /** The rows of `table` whose key is `key`, in table order. */
  function WithKey(table: seq<Loader.Record>, key: string): (r: seq<Loader.Record>)
    ensures |r| <= |table|
    ensures forall x :: x in r <==> x in table && x.regionKey == key
  {
    if table == [] then []
    else
      assert forall x :: x in table <==> x == table[0] || x in table[1..] by {
        assert table == [table[0]] + table[1..];
      }
      (if table[0].regionKey == key then [table[0]] else []) + WithKey(table[1..], key)
  }

  /** Selecting rows works row by row: it keeps the table's order. */
  lemma {:induction false} WithKeyConcat(a: seq<Loader.Record>, b: seq<Loader.Record>, key: string)
    ensures WithKey(a + b, key) == WithKey(a, key) + WithKey(b, key)
  {
    if a == [] {
      assert a + b == b;
    } else {
      assert (a + b)[1..] == a[1..] + b;
      WithKeyConcat(a[1..], b, key);
    }
  }

  /** Rows in chronological order: the loader's order on the rows without
      their region columns. */
  predicate DateOrdered(t: seq<Loader.Record>) {
    Loader.SortedByDate(Loader.Unregioned(t))
  }

  /** The tail of a date-ordered table is date-ordered and dated no earlier
      than its head. */
  lemma DateOrderedTail(table: seq<Loader.Record>)
    requires table != [] && DateOrdered(table)
    ensures DateOrdered(table[1..])
    ensures Loader.NoneBefore(table[0].date, Loader.Unregioned(table[1..]))
  {
    var u := Loader.Unregioned(table);
    assert Loader.Unregioned(table[1..]) == u[1..];
    assert u[0].date == table[0].date;
  }

  /** A date no later than every row stays no later than every selected row. */
  lemma NoneBeforeSelection(d: Date, t: seq<Loader.Record>, key: string)
    requires Loader.NoneBefore(d, Loader.Unregioned(t))
    ensures Loader.NoneBefore(d, Loader.Unregioned(WithKey(t, key)))
  {
    var u := Loader.Unregioned(t);
    var rest := WithKey(t, key);
    var ur := Loader.Unregioned(rest);
    forall j | 0 <= j < |ur| ensures NotAfter(d, ur[j].date) {
      assert rest[j] in rest;
      var k :| 0 <= k < |t| && t[k] == rest[j];
      assert u[k].date == rest[j].date;
    }
  }

  /** A row dated no later than a date-ordered table can go at its head. */
  lemma DateOrderedCons(r: Loader.Record, t: seq<Loader.Record>)
    requires DateOrdered(t) && Loader.NoneBefore(r.date, Loader.Unregioned(t))
    ensures DateOrdered([r] + t)
  {
    var x := Loader.Kept(r.date, r.sales, r.cells);
    assert Loader.Unregioned([r] + t) == [x] + Loader.Unregioned(t);
    Loader.SortedCons(x, Loader.Unregioned(t));
  }

  /** The selection of a date-ordered table is date-ordered, so each line of
      the chart runs forward in time. */
  lemma {:induction false} WithKeySorted(table: seq<Loader.Record>, key: string)
    requires DateOrdered(table)
    ensures DateOrdered(WithKey(table, key))
  {
    if table != [] {
      DateOrderedTail(table);
      WithKeySorted(table[1..], key);
      var rest := WithKey(table[1..], key);
      if table[0].regionKey == key {
        NoneBeforeSelection(table[0].date, table[1..], key);
        DateOrderedCons(table[0], rest);
        assert WithKey(table, key) == [table[0]] + rest;
      } else {
        assert WithKey(table, key) == rest;
      }
    }
  }

  /** `update_graph`'s rows: the whole table for "all", otherwise the rows
      whose key equals the selected value. */
  function Filtered(table: seq<Loader.Record>, selected: string): (r: seq<Loader.Record>)
    ensures selected == AllValue ==> r == table
    ensures selected != AllValue ==> forall x :: x in r <==> x in table && x.regionKey == selected
    ensures selected != AllValue ==> r == WithKey(table, selected)
  {
    if selected == AllValue then table else WithKey(table, selected)
  }

  /** The title suffix `update_graph` passes to the chart. */
  function TitleSuffix(selected: string): (t: string)
    ensures selected == AllValue ==> t == "All Regions"
    ensures selected != AllValue ==> Text.Casefold(t) == Text.Casefold(selected) && Text.Title(t) == t
  {
    if selected == AllValue then "All Regions"
    else
      Text.TitleIdempotent(selected);
      Text.CasefoldOfTitle(selected);
      Text.Title(selected)
  }

  /** Choosing a region option shows that region's rows, all of them and
      only them, under a title naming the option's label. */
  lemma RegionOptionSelects(table: seq<Loader.Record>, i: int)
    requires 0 <= i < |RegionOptions(table)| - 1
    requires RegionOptions(table)[i].value != AllValue
    ensures var o := RegionOptions(table)[i];
      && Filtered(table, o.value) != []
      && (forall x :: x in Filtered(table, o.value) <==> x in table && x.regionKey == o.value)
      && TitleSuffix(o.value) == o.caption
  {
    var o := RegionOptions(table)[i];
    assert o.value in Keys(table);
    var j :| 0 <= j < |table| && Keys(table)[j] == o.value;
    assert table[j] in Filtered(table, o.value);
  }

  /** Each row shows under exactly one region option: the one whose value
      is its key. */
  lemma RowUnderOneOption(table: seq<Loader.Record>, x: Loader.Record)
    requires x in table
    ensures var opts := RegionOptions(table);
      forall i :: 0 <= i < |opts| - 1 && opts[i].value != AllValue ==>
        (x in Filtered(table, opts[i].value) <==> opts[i].value == x.regionKey)
    ensures var opts := RegionOptions(table);
      exists i :: 0 <= i < |opts| - 1 && opts[i].value == x.regionKey
  {
    var opts := RegionOptions(table);
    var j :| 0 <= j < |table| && table[j] == x;
    assert Keys(table)[j] == x.regionKey;
    assert x.regionKey in Keys(table);
    assert (exists i :: 0 <= i < |opts| - 1 && opts[i].value == x.regionKey) <==> x.regionKey in Keys(table);
  }

  /** A region spelled "All" in the file gets the key "all", which is also
      the value of the "All" option: choosing it shows every region. */
  lemma RegionNamedAll(table: seq<Loader.Record>, x: Loader.Record)
    requires x in table && x.regionKey == AllValue
    ensures var opts := RegionOptions(table);
      && (exists i :: 0 <= i < |opts| - 1 && opts[i] == RegionOption("All", AllValue))
      && Filtered(table, x.regionKey) == table
  {
    var opts := RegionOptions(table);
    var j :| 0 <= j < |table| && table[j] == x;
    assert Keys(table)[j] == AllValue;
    assert AllValue in Keys(table);
    assert (exists i :: 0 <= i < |opts| - 1 && opts[i].value == AllValue) <==> AllValue in Keys(table);
    var i :| 0 <= i < |opts| - 1 && opts[i].value == AllValue;
    TitleOfAll();
    assert opts[i] == RegionOption("All", AllValue);
  }

  lemma TitleOfAll()
    ensures Text.Title(AllValue) == "All"
  {
    Text.TitleWord("all");
    assert Text.Casefold("ll") == "ll";
  }
}
