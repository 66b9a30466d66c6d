/** String helpers shared by the back end and the front end: white-space trimming,
    splitting on a separator character, joining, the comma-list parse used for
    authors and tags, and ASCII case-insensitive substring search. */
module Text {

  /** The ASCII white space that Python's `str.strip()` and JavaScript's `trim()` both
      remove: space, tab, line feed, vertical tab, form feed, carriage return. Python
      also strips the separators U+001C to U+001F, which JavaScript keeps. */
  predicate IsSpace(c: char) {
    c == ' ' || ('\t' <= c <= '\r')
  }

  /** Every character of `s` in `[lo, hi)` is white space. */
  predicate SpaceBetween(s: string, lo: int, hi: int) {
    forall k :: lo <= k < hi && 0 <= k < |s| ==> IsSpace(s[k])
  }

  /** Neither starts nor ends with white space. */
  predicate IsTrimmed(s: string) {
    |s| == 0 || (!IsSpace(s[0]) && !IsSpace(s[|s| - 1]))
  }

  // ---------------------------------------------------------------------------
  // Trimming
  // ---------------------------------------------------------------------------

  /** The index of the first non-space character of `s` at or after `i`, or `|s|`. */
  function SkipForward(s: string, i: nat): (j: nat)
    requires i <= |s|
    ensures i <= j <= |s|
    ensures SpaceBetween(s, i, j)
    ensures j < |s| ==> !IsSpace(s[j])
    decreases |s| - i
  {
    if i < |s| && IsSpace(s[i]) then SkipForward(s, i + 1) else i
  }

  /** The index just past the last non-space character of `s` before `j`, but not
      below `lo`. */
  function SkipBackward(s: string, lo: nat, j: nat): (e: nat)
    requires lo <= j <= |s|
    ensures lo <= e <= j
    ensures SpaceBetween(s, e, j)
    ensures e > lo ==> !IsSpace(s[e - 1])
    decreases j
  {
    if j > lo && IsSpace(s[j - 1]) then SkipBackward(s, lo, j - 1) else j
  }

  /** Python's `str.strip()` and JavaScript's `trim()`. `TrimIsInfix` and
      `TrimUnique` state what it returns. */
  function Trim(s: string): (r: string)
    ensures IsTrimmed(r)
    ensures |r| <= |s|
  {
    var i := SkipForward(s, 0);
    s[i..SkipBackward(s, i, |s|)]
  }

  /** `r` is what is left of `s` after removing white space from before `i` and
      after `i + |r|`. */
  predicate TrimmedAt(s: string, i: int, r: string) {
    0 <= i <= |s| - |r| && r == s[i..i + |r|] && SpaceBetween(s, 0, i) && SpaceBetween(s, i + |r|, |s|)
  }

  /** `Trim` removes white space, and only white space, from both ends of `s`. */
  lemma TrimIsInfix(s: string) returns (i: nat)
    ensures TrimmedAt(s, i, Trim(s))
  {
    i := SkipForward(s, 0);
  }

  /** A trimmed infix surrounded by white space is what `Trim` returns: together with
      `TrimIsInfix` this determines `Trim` completely. */
  lemma TrimUnique(s: string, i: nat, n: nat)
    requires i + n <= |s|
    requires SpaceBetween(s, 0, i) && SpaceBetween(s, i + n, |s|)
    requires IsTrimmed(s[i..i + n])
    ensures Trim(s) == s[i..i + n]
  {
    var f := SkipForward(s, 0);
    if n == 0 {
      assert SpaceBetween(s, 0, |s|);
      assert f == |s|;
    } else {
      assert s[i] == s[i..i + n][0];
      assert s[i + n - 1] == s[i..i + n][n - 1];
      assert f == i;
      var e := SkipBackward(s, i, |s|);
      assert e == i + n;
    }
  }

  lemma TrimTrimmed(s: string)
    requires IsTrimmed(s)
    ensures Trim(s) == s
  {
    TrimUnique(s, 0, |s|);
  }

  lemma TrimIdempotent(s: string)
    ensures Trim(Trim(s)) == Trim(s)
  {
    TrimTrimmed(Trim(s));
  }

  /** `Trim` returns the empty string exactly for all-space input. */
  lemma TrimEmptyIffAllSpace(s: string)
    ensures Trim(s) == "" <==> SpaceBetween(s, 0, |s|)
  {
    if SpaceBetween(s, 0, |s|) {
      TrimUnique(s, |s|, 0);
    } else {
      var i := TrimIsInfix(s);
    }
  }

  lemma TrimSpaceBefore(c: char, s: string)
    requires IsSpace(c)
    ensures Trim([c] + s) == Trim(s)
  {
    var r := Trim(s);
    var i := TrimIsInfix(s);
    var t := [c] + s;
    assert t[i + 1..i + 1 + |r|] == r;
    TrimUnique(t, i + 1, |r|);
  }

  lemma TrimSpaceAfter(s: string, c: char)
    requires IsSpace(c)
    ensures Trim(s + [c]) == Trim(s)
  {
    var r := Trim(s);
    var i := TrimIsInfix(s);
    var t := s + [c];
    assert t[i..i + |r|] == r;
    TrimUnique(t, i, |r|);
  }

  /** Trimming never introduces a character that was not in the input. */
  lemma TrimKeepsOut(s: string, c: char)
    ensures c !in s ==> c !in Trim(s)
  {
    var r := Trim(s);
    var i := TrimIsInfix(s);
    assert forall k :: 0 <= k < |r| ==> r[k] == s[i + k];
  }

  function TrimEach(xs: seq<string>): (r: seq<string>)
    ensures |r| == |xs|
    ensures forall i :: 0 <= i < |xs| ==> r[i] == Trim(xs[i])
  {
    if |xs| == 0 then [] else [Trim(xs[0])] + TrimEach(xs[1..])
  }

  // ---------------------------------------------------------------------------
  // Split and join
  // ---------------------------------------------------------------------------

  function Occurrences(s: string, c: char): nat {
    if |s| == 0 then 0 else (if s[0] == c then 1 else 0) + Occurrences(s[1..], c)
  }

  /** Python's `sep.join(xs)` and JavaScript's `xs.join(sep)`. */
  function Join(xs: seq<string>, sep: string): string {
    if |xs| == 0 then ""
    else if |xs| == 1 then xs[0]
    else xs[0] + sep + Join(xs[1..], sep)
  }

  lemma JoinConsHead(c: char, xs: seq<string>, sep: string)
    requires |xs| > 0
    ensures Join([[c] + xs[0]] + xs[1..], sep) == [c] + Join(xs, sep)
  {
    var ys := [[c] + xs[0]] + xs[1..];
    assert ys[1..] == xs[1..];
  }

  /** Python's `s.split(sep)` and JavaScript's `s.split(sep)` for a one-character
      separator: every separator ends a piece, so the empty string gives one empty
      piece and the pieces joined back with the separator give `s`. */
  function Split(s: string, sep: char): (r: seq<string>)
    ensures |r| == Occurrences(s, sep) + 1
    ensures forall i :: 0 <= i < |r| ==> sep !in r[i]
    ensures Join(r, [sep]) == s
    decreases |s|
  {
    if |s| == 0 then [""]
    else
      var rest := Split(s[1..], sep);
      if s[0] == sep then
        assert ([""] + rest)[1..] == rest;
        [""] + rest
      else
        JoinConsHead(s[0], rest, [sep]);
        [[s[0]] + rest[0]] + rest[1..]
  }

  /** A separator splits the string into the pieces of the two sides. */
  lemma {:induction false} SplitConcat(a: string, b: string, sep: char)
    ensures Split(a + [sep] + b, sep) == Split(a, sep) + Split(b, sep)
    decreases |a|
  {
    var s := a + [sep] + b;
    if |a| == 0 {
      assert s[1..] == b;
    } else {
      assert s[1..] == a[1..] + [sep] + b;
      SplitConcat(a[1..], b, sep);
    }
  }

  lemma {:induction false} SplitNoSeparator(a: string, sep: char)
    requires sep !in a
    ensures Split(a, sep) == [a]
    decreases |a|
  {
    if |a| > 0 {
      SplitNoSeparator(a[1..], sep);
      assert [a[0]] + a[1..] == a;
    }
  }

  /** Joining separator-free pieces and splitting again gives the pieces back. */
  lemma {:induction false} SplitJoin(xs: seq<string>, sep: char)
    requires |xs| > 0
    requires forall i :: 0 <= i < |xs| ==> sep !in xs[i]
    ensures Split(Join(xs, [sep]), sep) == xs
    decreases |xs|
  {
    SplitNoSeparator(xs[0], sep);
    if |xs| > 1 {
      SplitJoin(xs[1..], sep);
      SplitConcat(xs[0], Join(xs[1..], [sep]), sep);
      assert [xs[0]] + xs[1..] == xs;
    }
  }

  // ---------------------------------------------------------------------------
  // Comma lists (authors and tags)
  // ---------------------------------------------------------------------------

  /** An item a comma list can hold and give back unchanged. */
  predicate IsListItem(x: string) {
    x != "" && IsTrimmed(x) && ',' !in x
  }

  predicate NoCommas(pieces: seq<string>) {
    forall i :: 0 <= i < |pieces| ==> ',' !in pieces[i]
  }

  /** Trims every piece and drops the ones that trim to the empty string. */
  function Clean(pieces: seq<string>): (r: seq<string>)
    ensures |r| <= |pieces|
    ensures forall i :: 0 <= i < |r| ==> r[i] != "" && IsTrimmed(r[i])
    ensures NoCommas(pieces) ==> NoCommas(r)
  {
    if |pieces| == 0 then []
    else
      var t := Trim(pieces[0]);
      var rest := Clean(pieces[1..]);
      TrimKeepsOut(pieces[0], ',');
      assert NoCommas(pieces) ==> NoCommas(pieces[1..]);
      if t == "" then rest else [t] + rest
  }

  lemma {:induction false} CleanConcat(a: seq<string>, b: seq<string>)
    ensures Clean(a + b) == Clean(a) + Clean(b)
    decreases |a|
  {
    if |a| == 0 {
      assert a + b == b;
    } else {
      var ab := a + b;
      assert ab[0] == a[0];
      assert ab[1..] == a[1..] + b;
      CleanConcat(a[1..], b);
      var t := Trim(a[0]);
      if t != "" {
        calc {
          Clean(ab);
          [t] + Clean(ab[1..]);
          [t] + (Clean(a[1..]) + Clean(b));
          ([t] + Clean(a[1..])) + Clean(b);
          Clean(a) + Clean(b);
        }
      }
    }
  }

  /** The comma-list parse of both tiers: split on ',', trim each piece, keep the
      non-empty ones, in order. */
  function ParseList(s: string): (r: seq<string>)
    ensures forall i :: 0 <= i < |r| ==> IsListItem(r[i])
    ensures |r| <= Occurrences(s, ',') + 1
    ensures s == "" ==> r == []
  {
    Clean(Split(s, ','))
  }

  /** A comma separates the parse of its two sides: order is preserved. */
  lemma ParseListConcat(a: string, b: string)
    ensures ParseList(a + "," + b) == ParseList(a) + ParseList(b)
  {
    SplitConcat(a, b, ',');
    CleanConcat(Split(a, ','), Split(b, ','));
  }

  lemma ParseListItem(x: string)
    requires IsListItem(x)
    ensures ParseList(x) == [x]
  {
    SplitNoSeparator(x, ',');
    TrimTrimmed(x);
  }

  lemma ParseListSpaceBefore(c: char, s: string)
    requires IsSpace(c)
    ensures ParseList([c] + s) == ParseList(s)
  {
    var p := Split(s, ',');
    var q := Split([c] + s, ',');
    assert ([c] + s)[1..] == s;
    assert q == [[c] + p[0]] + p[1..];
    TrimSpaceBefore(c, p[0]);
    assert q[1..] == p[1..];
  }

  lemma {:induction false} SplitSnoc(s: string, c: char, sep: char)
    requires c != sep
    ensures var p := Split(s, sep); Split(s + [c], sep) == p[..|p| - 1] + [p[|p| - 1] + [c]]
    decreases |s|
  {
    var t := s + [c];
    if |s| == 0 {
      assert t[1..] == "";
    } else {
      assert t[1..] == s[1..] + [c];
      SplitSnoc(s[1..], c, sep);
    }
  }

  lemma CleanSingle(x: string, y: string)
    requires Trim(x) == Trim(y)
    ensures Clean([x]) == Clean([y])
  {
    assert [x][1..] == [] && [y][1..] == [];
  }

  lemma ParseListSpaceAfter(s: string, c: char)
    requires IsSpace(c)
    ensures ParseList(s + [c]) == ParseList(s)
  {
    var p := Split(s, ',');
    var n := |p| - 1;
    var init := p[..n];
    SplitSnoc(s, c, ',');
    calc {
      ParseList(s + [c]);
      Clean(init + [p[n] + [c]]);
      { CleanConcat(init, [p[n] + [c]]); }
      Clean(init) + Clean([p[n] + [c]]);
      { TrimSpaceAfter(p[n], c); CleanSingle(p[n] + [c], p[n]); }
      Clean(init) + Clean([p[n]]);
      { CleanConcat(init, [p[n]]); assert p[n..] == [p[n]]; assert init + p[n..] == p; }
      ParseList(s);
    }
  }

  lemma {:induction false} ParseListSpacesAround(a: string, m: string, b: string)
    requires SpaceBetween(a, 0, |a|) && SpaceBetween(b, 0, |b|)
    ensures ParseList(a + m + b) == ParseList(m)
    decreases |a| + |b|
  {
    if |a| > 0 {
      assert a + m + b == [a[0]] + (a[1..] + m + b);
      ParseListSpaceBefore(a[0], a[1..] + m + b);
      ParseListSpacesAround(a[1..], m, b);
    } else if |b| > 0 {
      var n := |b| - 1;
      assert a + m + b == (a + m + b[..n]) + [b[n]];
      ParseListSpaceAfter(a + m + b[..n], b[n]);
      ParseListSpacesAround(a, m, b[..n]);
    } else {
      assert a + m + b == m;
    }
  }

  /** Trimming the whole input first (as the upload form does) does not change the parse. */
  lemma ParseListTrim(s: string)
    ensures ParseList(Trim(s)) == ParseList(s)
  {
    var r := Trim(s);
    var i := TrimIsInfix(s);
    assert s == s[..i] + r + s[i + |r|..];
    ParseListSpacesAround(s[..i], r, s[i + |r|..]);
  }

  /** Joining well-formed items with ", " and parsing the result gives the items back. */
  lemma {:induction false} ParseListJoin(xs: seq<string>)
    requires forall i :: 0 <= i < |xs| ==> IsListItem(xs[i])
    ensures ParseList(Join(xs, ", ")) == xs
    decreases |xs|
  {
    if |xs| == 1 {
      ParseListItem(xs[0]);
    } else if |xs| > 1 {
      var head, tail := xs[0], xs[1..];
      var rest := Join(tail, ", ");
      calc {
        ParseList(Join(xs, ", "));
        { JoinStep(xs); }
        ParseList(head + "," + ([' '] + rest));
        { ParseListConcat(head, [' '] + rest); }
        ParseList(head) + ParseList([' '] + rest);
        { ParseListItem(head); ParseListSpaceBefore(' ', rest); }
        [head] + ParseList(rest);
        { ParseListJoin(tail); }
        [head] + tail;
        xs;
      }
    }
  }

  /** Joining with ", " is joining with "," and a leading blank on the rest. */
  lemma JoinStep(xs: seq<string>)
    requires |xs| > 1
    ensures Join(xs, ", ") == xs[0] + "," + ([' '] + Join(xs[1..], ", "))
  {
  }

  // ---------------------------------------------------------------------------
  // Case-insensitive search
  // ---------------------------------------------------------------------------

  function LowerChar(c: char): char {
    if 'A' <= c <= 'Z' then (c as int + 32) as char else c
  }

  /** ASCII lower-casing, character by character. */
  function Lower(s: string): (r: string)
    ensures |r| == |s|
    ensures forall i :: 0 <= i < |s| ==> r[i] == LowerChar(s[i])
  {
    if |s| == 0 then "" else [LowerChar(s[0])] + Lower(s[1..])
  }

  /** `needle` occurs in `hay` at position `i`. */
  predicate OccursAt(needle: string, hay: string, i: int) {
    0 <= i && i + |needle| <= |hay| && hay[i..i + |needle|] == needle
  }

  /** Substring search: true exactly when `needle` occurs somewhere in `hay`. */
  function IsInfix(needle: string, hay: string): (r: bool)
    ensures r <==> exists i :: OccursAt(needle, hay, i)
  {
    SearchFrom(needle, hay, 0)
  }

  /** Whether `needle` occurs in `hay` at position `i` or later. */
  function SearchFrom(needle: string, hay: string, i: nat): (r: bool)
    ensures r <==> exists j :: i <= j && OccursAt(needle, hay, j)
    decreases |hay| - i
  {
    if i + |needle| > |hay| then false
    else if OccursAt(needle, hay, i) then true
    else SearchFrom(needle, hay, i + 1)
  }

  /** Case-insensitive literal substring match, the model of a `$regex` with the
      `i` option whose pattern holds no metacharacters. */
  predicate ContainsIgnoreCase(hay: string, needle: string) {
    IsInfix(Lower(needle), Lower(hay))
  }

  /** The index of the last occurrence of `c` in `s[..j]`, or -1. */
  function LastIndexBefore(s: string, c: char, j: nat): (r: int)
    requires j <= |s|
    ensures -1 <= r < j
    ensures r >= 0 ==> s[r] == c
    ensures forall k :: r < k < j ==> s[k] != c
    decreases j
  {
    if j == 0 then -1
    else if s[j - 1] == c then j - 1
    else LastIndexBefore(s, c, j - 1)
  }
}
