/** The string methods the loader applies to column names and region names:
    Python's `str.strip`, `str.title` and `str.casefold`, over the ASCII part
    of the character set (every other character is uncased and not
    whitespace here). */
module Text {

  /** Python's `str.isspace` on ASCII: tab, line feed, vertical tab, form
      feed, carriage return (9-13), the four information separators (28-31)
      and the space (32). */
  predicate IsSpace(c: char): (b: bool)
    ensures b <==> c in {'\t', '\n', '\U{0B}', '\U{0C}', '\r', '\U{1C}', '\U{1D}', '\U{1E}', '\U{1F}', ' '}
  {
    9 <= c as int <= 13 || 28 <= c as int <= 32
  }

  predicate IsUpper(c: char) {
    'A' <= c <= 'Z'
  }

  predicate IsLower(c: char) {
    'a' <= c <= 'z'
  }

  /** A cased character: one that has an upper- and a lower-case form. */
  predicate IsCased(c: char) {
    IsUpper(c) || IsLower(c)
  }

  function ToLower(c: char): (r: char)
    ensures IsCased(r) == IsCased(c) && !IsUpper(r)
    ensures !IsCased(c) ==> r == c
  {
    if IsUpper(c) then (c as int + 32) as char else c
  }

  function ToUpper(c: char): (r: char)
    ensures IsCased(r) == IsCased(c) && !IsLower(r)
    ensures ToLower(r) == ToLower(c)
    ensures !IsCased(c) ==> r == c
  {
    if IsLower(c) then (c as int - 32) as char else c
  }

  /** `str.casefold`, which on ASCII maps every upper-case letter to its
      lower-case form and leaves every other character alone. */
  function Casefold(s: string): (r: string)
    ensures |r| == |s|
    ensures forall i :: 0 <= i < |s| ==> !IsUpper(r[i]) && ToLower(r[i]) == ToLower(s[i])
  {
    seq(|s|, i requires 0 <= i < |s| => ToLower(s[i]))
  }

  lemma CasefoldTail(s: string)
    requires s != []
    ensures Casefold(s) == [ToLower(s[0])] + Casefold(s[1..])
  {
    assert Casefold(s)[1..] == Casefold(s[1..]);
  }

  /* ---------------- strip ---------------- */

  /** No whitespace at either end. */
  predicate IsStripped(s: string) {
    s == [] || (!IsSpace(s[0]) && !IsSpace(s[|s| - 1]))
  }

  /** Drops the leading whitespace. */
  function StripLeft(s: string): (r: string)
    ensures |r| <= |s| && r == s[|s| - |r|..]
    ensures forall k :: 0 <= k < |s| - |r| ==> IsSpace(s[k])
    ensures r == [] || !IsSpace(r[0])
  {
    if s != [] && IsSpace(s[0]) then StripLeft(s[1..]) else s
  }

  /** Drops the trailing whitespace. */
  function StripRight(s: string): (r: string)
    ensures |r| <= |s| && r == s[..|r|]
    ensures forall k :: |r| <= k < |s| ==> IsSpace(s[k])
    ensures r == [] || !IsSpace(r[|r| - 1])
  {
    if s != [] && IsSpace(s[|s| - 1]) then StripRight(s[..|s| - 1]) else s
  }

  /** `str.strip()`: the longest middle slice of `s` with no whitespace at
      either end; everything cut off is whitespace. */
  function Strip(s: string): (r: string)
    ensures IsStripped(r)
    ensures exists i, j ::
              && 0 <= i <= j <= |s| && r == s[i..j]
              && (forall k :: 0 <= k < i ==> IsSpace(s[k]))
              && (forall k :: j <= k < |s| ==> IsSpace(s[k]))
  {
    var l := StripLeft(s);
    var r := StripRight(l);
    TrimmedBothEnds(s, l, r);
    r
  }

  /** A whitespace prefix cut from `s`, then a whitespace suffix cut from
      what is left, leave a middle slice of `s`. */
  lemma TrimmedBothEnds(s: string, l: string, r: string)
    requires |l| <= |s| && l == s[|s| - |l|..] && (forall k :: 0 <= k < |s| - |l| ==> IsSpace(s[k]))
    requires l == [] || !IsSpace(l[0])
    requires |r| <= |l| && r == l[..|r|] && (forall k :: |r| <= k < |l| ==> IsSpace(l[k]))
    requires r == [] || !IsSpace(r[|r| - 1])
    ensures IsStripped(r)
    ensures exists i, j ::
              && 0 <= i <= j <= |s| && r == s[i..j]
              && (forall k :: 0 <= k < i ==> IsSpace(s[k]))
              && (forall k :: j <= k < |s| ==> IsSpace(s[k]))
  {
    var i := |s| - |l|;
    var j := i + |r|;
    assert r == s[i..j];
    forall k | j <= k < |s| ensures IsSpace(s[k]) {
      assert s[k] == l[k - i];
    }
    if r != [] {
      assert r[0] == l[0];
    }
  }

  /** A string of whitespace only strips to nothing. */
  lemma StripBlank(s: string)
    requires forall k :: 0 <= k < |s| ==> IsSpace(s[k])
    ensures Strip(s) == []
  {
    var i, j :| 0 <= i <= j <= |s| && Strip(s) == s[i..j];
  }

  /** Stripping a string without surrounding whitespace changes nothing. */
  lemma {:induction false} StripStripped(s: string)
    requires IsStripped(s)
    ensures Strip(s) == s
  {
  }

  predicate AllSpace(s: string) {
    forall k :: 0 <= k < |s| ==> IsSpace(s[k])
  }

  lemma {:induction false} StripLeftSpaces(a: string, t: string)
    requires AllSpace(a) && (t == [] || !IsSpace(t[0]))
    ensures StripLeft(a + t) == t
  {
    if a == [] {
      assert a + t == t;
    } else {
      assert (a + t)[1..] == a[1..] + t;
      StripLeftSpaces(a[1..], t);
    }
  }

  lemma {:induction false} StripRightSpaces(t: string, b: string)
    requires AllSpace(b) && (t == [] || !IsSpace(t[|t| - 1]))
    ensures StripRight(t + b) == t
  {
    if b == [] {
      assert t + b == t;
    } else {
      assert (t + b)[..|t + b| - 1] == t + b[..|b| - 1];
      StripRightSpaces(t, b[..|b| - 1]);
    }
  }

  /** Whitespace on either side of a word is exactly what `strip` removes. */
  lemma StripPadded(a: string, w: string, b: string)
    requires AllSpace(a) && AllSpace(b) && w != [] && IsStripped(w)
    ensures Strip(a + w + b) == w
  {
    assert a + w + b == a + (w + b);
    StripLeftSpaces(a, w + b);
    StripRightSpaces(w, b);
  }

  lemma StripIdempotent(s: string)
    ensures Strip(Strip(s)) == Strip(s)
  {
    StripStripped(Strip(s));
  }

  /* ---------------- title ---------------- */

  /** The case a character takes in `str.title`: lower after a cased
      character, upper (title) case otherwise. */
  function TitleChar(c: char, afterCased: bool): char {
    if afterCased then ToLower(c) else ToUpper(c)
  }

  /** `str.title` continued from a position whose predecessor was cased
      (`afterCased`) or not. Each cased character that starts a word (its
      predecessor is not cased) becomes upper case, every other cased
      character becomes lower case, and uncased characters stay put. */
  function TitleFrom(s: string, afterCased: bool): (r: string)
    ensures |r| == |s|
    ensures forall i :: 0 <= i < |s| ==> ToLower(r[i]) == ToLower(s[i])
    ensures forall i :: 0 <= i < |s| && !IsCased(s[i]) ==> r[i] == s[i]
    ensures forall i :: 0 <= i < |s| && IsCased(s[i]) ==>
      (IsUpper(r[i]) <==> !(if i == 0 then afterCased else IsCased(s[i - 1])))
    ensures forall i :: 0 <= i < |s| ==> IsCased(r[i]) == IsCased(s[i])
  {
    if s == [] then []
    else
      var rest := TitleFrom(s[1..], IsCased(s[0]));
      assert forall i :: 1 <= i < |s| ==> s[1..][i - 1] == s[i];
      [TitleChar(s[0], afterCased)] + rest
  }

  /** `str.title()`. */
  function Title(s: string): (r: string)
    ensures |r| == |s|
    ensures forall i :: 0 <= i < |s| ==> ToLower(r[i]) == ToLower(s[i]) && IsCased(r[i]) == IsCased(s[i])
    ensures forall i :: 0 <= i < |s| && !IsCased(s[i]) ==> r[i] == s[i]
    ensures forall i :: 0 <= i < |s| && IsCased(s[i]) ==> (IsUpper(r[i]) <==> i == 0 || !IsCased(s[i - 1]))
  {
    TitleFrom(s, false)
  }

  /** A run of letters title-cases to its first letter in upper case and
      the rest in lower case. */
  lemma TitleWord(w: string)
    requires w != [] && forall i :: 0 <= i < |w| ==> IsCased(w[i])
    ensures Title(w) == [ToUpper(w[0])] + Casefold(w[1..])
  {
    var r := Title(w);
    var e := [ToUpper(w[0])] + Casefold(w[1..]);
    forall i | 0 <= i < |w| ensures r[i] == e[i] {
      assert ToLower(r[i]) == ToLower(w[i]);
      if i > 0 {
        assert e[i] == Casefold(w[1..])[i - 1] == ToLower(w[i]);
        assert IsCased(w[i]) && IsCased(w[i - 1]);
        assert !IsUpper(r[i]);
      } else {
        assert IsUpper(r[0]) && IsUpper(ToUpper(w[0]));
        assert ToLower(ToUpper(w[0])) == ToLower(w[0]);
      }
    }
  }

  lemma {:induction false} TitleFromIdempotent(s: string, afterCased: bool)
    ensures TitleFrom(TitleFrom(s, afterCased), afterCased) == TitleFrom(s, afterCased)
  {
    if s != [] {
      var t := TitleFrom(s, afterCased);
      assert t[1..] == TitleFrom(s[1..], IsCased(s[0]));
      TitleFromIdempotent(s[1..], IsCased(s[0]));
    }
  }

  /** Title-casing twice is title-casing once. */
  lemma TitleIdempotent(s: string)
    ensures Title(Title(s)) == Title(s)
  {
    TitleFromIdempotent(s, false);
  }

  lemma {:induction false} TitleFromCasefold(s: string, afterCased: bool)
    ensures TitleFrom(Casefold(s), afterCased) == TitleFrom(s, afterCased)
  {
    if s != [] {
      CasefoldTail(s);
      TitleFromCasefold(s[1..], IsCased(s[0]));
    }
  }

  /** `title` ignores the case it is given. */
  lemma TitleOfCasefold(s: string)
    ensures Title(Casefold(s)) == Title(s)
  {
    TitleFromCasefold(s, false);
  }

  /** Case-folding a title-cased string undoes the title casing. */
  lemma CasefoldOfTitle(s: string)
    ensures Casefold(Title(s)) == Casefold(s)
  {
  }

  /** Title casing keeps whitespace where it was, so a stripped string stays
      stripped. */
  lemma TitleKeepsStripped(s: string)
    requires IsStripped(s)
    ensures IsStripped(Title(s))
  {
  }
}
