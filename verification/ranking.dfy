/** Stable sorting by descending score: the model of Python's
    `results.sort(key=lambda x: x["score"], reverse=True)`, which is documented to keep
    entries with equal keys in their original order even when `reverse` is set. */
module Ranking {

  /** An entry together with the score it is ranked by. */
  datatype Scored<T> = Scored(item: T, score: real)

  /** Scores never increase from left to right. */
  predicate SortedDesc<T>(s: seq<Scored<T>>) {
    forall i, j :: 0 <= i < j < |s| ==> s[i].score >= s[j].score
  }

  /** The entries of `s` whose score is `v`, in their order in `s`. A sort is
      stable exactly when it leaves every such subsequence unchanged. */
  function WithScore<T>(s: seq<Scored<T>>, v: real): (r: seq<Scored<T>>)
    ensures |r| <= |s|
    ensures forall k :: 0 <= k < |r| ==> r[k].score == v
  {
    if |s| == 0 then []
    else (if s[0].score == v then [s[0]] else []) + WithScore(s[1..], v)
  }

  lemma WithScoreCons<T>(x: Scored<T>, s: seq<Scored<T>>, v: real)
    ensures WithScore([x] + s, v) == (if x.score == v then [x] else []) + WithScore(s, v)
  {
    assert ([x] + s)[0] == x;
    assert ([x] + s)[1..] == s;
  }

  /** Some entry of `s` has score `v` exactly when the subsequence for `v` is non-empty. */
  lemma {:induction false} WithScoreEmpty<T>(s: seq<Scored<T>>, v: real)
    ensures WithScore(s, v) == [] <==> forall k :: 0 <= k < |s| ==> s[k].score != v
  {
    if |s| > 0 {
      WithScoreEmpty(s[1..], v);
      assert forall k :: 1 <= k < |s| ==> s[k] == s[1..][k - 1];
    }
  }

  /** Putting an entry with at least the head's score in front keeps a sequence sorted. */
  lemma SortedCons<T>(y: Scored<T>, t: seq<Scored<T>>)
    ensures SortedDesc(t) && (|t| > 0 ==> y.score >= t[0].score) ==> SortedDesc([y] + t)
  {
    if SortedDesc(t) && (|t| > 0 ==> y.score >= t[0].score) {
      var u := [y] + t;
      forall i, j | 0 <= i < j < |u| ensures u[i].score >= u[j].score {
        if i == 0 && j > 1 {
          assert u[j] == t[j - 1];
        }
      }
    }
  }

  /** Inserts `x` before the first entry whose score does not exceed its own, so
      that `x` precedes every entry it ties with. */
  function Insert<T>(x: Scored<T>, s: seq<Scored<T>>): (r: seq<Scored<T>>)
    ensures |r| == |s| + 1
    ensures multiset(r) == multiset(s) + multiset{x}
    ensures r[0] == x || (|s| > 0 && r[0] == s[0])
    ensures SortedDesc(s) ==> SortedDesc(r)
  {
    if |s| == 0 || s[0].score <= x.score then
      SortedCons(x, s);
      [x] + s
    else
      var rest := Insert(x, s[1..]);
      assert s == [s[0]] + s[1..];
      assert multiset([s[0]] + rest) == multiset{s[0]} + multiset(rest);
      assert SortedDesc(s) ==> SortedDesc(s[1..]);
      SortedCons(s[0], rest);
      [s[0]] + rest
  }

  /** Insertion sort by descending score. */
  function SortDesc<T>(s: seq<Scored<T>>): (r: seq<Scored<T>>)
    ensures |r| == |s|
    ensures multiset(r) == multiset(s)
    ensures SortedDesc(r)
  {
    if |s| == 0 then []
    else
      assert s == [s[0]] + s[1..];
      Insert(s[0], SortDesc(s[1..]))
  }

  /** Inserting into a sorted sequence puts `x` ahead of its ties and leaves the
      relative order of everything else alone. */
  lemma {:induction false} InsertWithScore<T>(x: Scored<T>, s: seq<Scored<T>>, v: real)
    ensures WithScore(Insert(x, s), v) == WithScore([x] + s, v)
  {
    if |s| > 0 && s[0].score > x.score {
      var t := s[1..];
      var rest := Insert(x, t);
      var p0 := if s[0].score == v then [s[0]] else [];
      var px := if x.score == v then [x] else [];
      assert Insert(x, s) == [s[0]] + rest;
      calc {
        WithScore(Insert(x, s), v);
        { WithScoreCons(s[0], rest, v); }
        p0 + WithScore(rest, v);
        { InsertWithScore(x, t, v); }
        p0 + WithScore([x] + t, v);
        { WithScoreCons(x, t, v); }
        p0 + (px + WithScore(t, v));
        { SwapPrefix(p0, px, WithScore(t, v)); }
        px + (p0 + WithScore(t, v));
        { assert WithScore(s, v) == p0 + WithScore(t, v); }
        px + WithScore(s, v);
        { WithScoreCons(x, s, v); }
        WithScore([x] + s, v);
      }
    }
  }

  lemma SwapPrefix<T>(a: seq<T>, b: seq<T>, w: seq<T>)
    requires a == [] || b == []
    ensures a + (b + w) == b + (a + w)
  {
    if a == [] {
      assert a + (b + w) == b + w == b + (a + w);
    } else {
      assert a + (b + w) == a + w == b + (a + w);
    }
  }

  /** Stability: for every score, the entries with that score appear in the sorted
      result in their original order. */
  lemma {:induction false} SortDescStable<T>(s: seq<Scored<T>>, v: real)
    ensures WithScore(SortDesc(s), v) == WithScore(s, v)
  {
    if |s| > 0 {
      var rest := SortDesc(s[1..]);
      InsertWithScore(s[0], rest, v);
      WithScoreCons(s[0], rest, v);
      SortDescStable(s[1..], v);
      assert s == [s[0]] + s[1..];
      WithScoreCons(s[0], s[1..], v);
    }
  }

  /** Sorting an already sorted sequence changes nothing. */
  lemma {:induction false} SortDescOfSorted<T>(s: seq<Scored<T>>)
    requires SortedDesc(s)
    ensures SortDesc(s) == s
  {
    if |s| > 0 {
      assert SortedDesc(s[1..]);
      SortDescOfSorted(s[1..]);
      assert s == [s[0]] + s[1..];
    }
  }

  /** Two sorted sequences with the same subsequence for every score are equal: the
      three properties of `SortDesc` (permutation, order, stability) determine its
      result. */
  lemma {:induction false} SortedSameTiesEqual<T>(a: seq<Scored<T>>, b: seq<Scored<T>>)
    requires SortedDesc(a) && SortedDesc(b)
    requires forall v :: WithScore(a, v) == WithScore(b, v)
    ensures a == b
    decreases |a| + |b|
  {
    if |a| == 0 || |b| == 0 {
      var c := if |a| == 0 then b else a;
      if |c| > 0 {
        WithScoreEmpty(a, c[0].score);
        WithScoreEmpty(b, c[0].score);
      }
    } else {
      var m := a[0].score;
      WithScoreEmpty(a, m);
      WithScoreEmpty(b, m);
      WithScoreEmpty(a, b[0].score);
      WithScoreEmpty(b, b[0].score);
      assert b[0].score == m;
      WithScoreCons(a[0], a[1..], m);
      WithScoreCons(b[0], b[1..], m);
      assert a == [a[0]] + a[1..] && b == [b[0]] + b[1..];
      assert WithScore(a, m)[0] == a[0] && WithScore(b, m)[0] == b[0];
      assert a[0] == b[0];
      forall v ensures WithScore(a[1..], v) == WithScore(b[1..], v) {
        WithScoreCons(a[0], a[1..], v);
        WithScoreCons(b[0], b[1..], v);
        var p := if a[0].score == v then [a[0]] else [];
        assert WithScore(a[1..], v) == WithScore(a, v)[|p|..];
        assert WithScore(b[1..], v) == WithScore(b, v)[|p|..];
      }
      assert SortedDesc(a[1..]) && SortedDesc(b[1..]);
      SortedSameTiesEqual(a[1..], b[1..]);
    }
  }

  /** `SortDesc` is the stable descending sort: any sorted sequence that keeps the
      ties of `s` in their original order is `SortDesc(s)`. */
  lemma SortDescUnique<T>(s: seq<Scored<T>>, t: seq<Scored<T>>)
    requires SortedDesc(t)
    requires forall v :: WithScore(t, v) == WithScore(s, v)
    ensures t == SortDesc(s)
  {
    forall v ensures WithScore(SortDesc(s), v) == WithScore(t, v) {
      SortDescStable(s, v);
    }
    SortedSameTiesEqual(SortDesc(s), t);
  }
}
