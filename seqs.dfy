/** Sequence helpers shared by the repositories: SQL-style filtering and
    OFFSET/LIMIT windows, Python's `reversed`, and the stable sort that
    Python's `sorted(key=...)` performs. */
module Seqs {
  import opened Common

  function Min(a: int, b: int): int { if a <= b then a else b }

  /** Rows of `s` satisfying `p`, in table order (a WHERE clause). */
  function Filter<T(!new)>(s: seq<T>, p: T -> bool): (r: seq<T>)
    ensures |r| <= |s|
    ensures forall x :: x in r <==> x in s && p(x)
    ensures multiset(r) <= multiset(s)
  {
    if s == [] then []
    else
      assert s == [s[0]] + s[1..];
      if p(s[0]) then [s[0]] + Filter(s[1..], p) else Filter(s[1..], p)
  }

  /** Number of rows satisfying `p`: the row count a DELETE or UPDATE reports. */
  function Count<T(!new)>(s: seq<T>, p: T -> bool): nat { |Filter(s, p)| }

  /** Rows of `s` that do NOT satisfy `p`: what a DELETE ... WHERE p leaves behind. */
  function Remove<T(!new)>(s: seq<T>, p: T -> bool): (r: seq<T>)
    ensures |r| + Count(s, p) == |s|
    ensures forall x :: x in r <==> x in s && !p(x)
    ensures multiset(r) <= multiset(s)
  {
    if s == [] then []
    else
      assert s == [s[0]] + s[1..];
      if p(s[0]) then Remove(s[1..], p) else [s[0]] + Remove(s[1..], p)
  }

  /** A DELETE that matches no row leaves the table as it was. */
  lemma {:induction false} RemoveNothing<T(!new)>(s: seq<T>, p: T -> bool)
    requires forall x :: x in s ==> !p(x)
    ensures Remove(s, p) == s
  {
    if s != [] {
      assert s == [s[0]] + s[1..];
      RemoveNothing(s[1..], p);
    }
  }

  /** `OFFSET offset LIMIT limit` applied to an ordered result. */
  function Window<T>(s: seq<T>, offset: nat, limit: nat): (r: seq<T>)
    ensures |r| == Min(limit, |s| - Min(offset, |s|))
    ensures forall i :: 0 <= i < |r| ==> offset + i < |s| && r[i] == s[offset + i]
  {
    var lo := Min(offset, |s|);
    var hi := Min(offset + limit, |s|);
    s[lo..hi]
  }

  lemma WindowInside<T>(s: seq<T>, offset: nat, limit: nat)
    ensures multiset(Window(s, offset, limit)) <= multiset(s)
  {
    var lo := Min(offset, |s|);
    var hi := Min(offset + limit, |s|);
    assert s == s[..lo] + s[lo..hi] + s[hi..];
    calc {
      multiset(s);
      multiset(s[..lo]) + multiset(s[lo..hi]) + multiset(s[hi..]);
    }
  }

  /** Python's `list(reversed(s))`. */
  function Reverse<T>(s: seq<T>): (r: seq<T>)
    ensures |r| == |s|
    ensures forall i :: 0 <= i < |s| ==> r[i] == s[|s| - 1 - i]
    ensures multiset(r) == multiset(s)
  {
    if s == [] then []
    else
      assert s == [s[0]] + s[1..];
      Reverse(s[1..]) + [s[0]]
  }

  lemma ReverseSameElements<T>(s: seq<T>)
    ensures forall x :: x in Reverse(s) <==> x in s
  {
    var r := Reverse(s);
    forall x | x in s ensures x in r {
      var i :| 0 <= i < |s| && s[i] == x;
      assert r[|s| - 1 - i] == x;
    }
  }

  /** A window of a sequence ordered by `le` holds only its elements and is
      ordered the same way. */
  lemma WindowOrdered<T>(s: seq<T>, le: (T, T) -> bool, offset: nat, limit: nat)
    requires forall i, j :: 0 <= i < j < |s| ==> le(s[i], s[j])
    ensures var w := Window(s, offset, limit);
      && (forall x :: x in w ==> x in s)
      && (forall i, j :: 0 <= i < j < |w| ==> le(w[i], w[j]))
  {
    var w := Window(s, offset, limit);
    forall x | x in w ensures x in s {
      var k :| 0 <= k < |w| && w[k] == x;
      assert s[offset + k] == x;
    }
    forall i, j | 0 <= i < j < |w| ensures le(w[i], w[j]) {
      assert w[i] == s[offset + i] && w[j] == s[offset + j];
    }
  }

  /** Reversed, such a window is ordered the other way. */
  lemma ReversedWindowOrdered<T>(s: seq<T>, le: (T, T) -> bool, offset: nat, limit: nat)
    requires forall i, j :: 0 <= i < j < |s| ==> le(s[i], s[j])
    ensures var r := Reverse(Window(s, offset, limit));
      && (forall x :: x in r ==> x in s)
      && (forall i, j :: 0 <= i < j < |r| ==> le(r[j], r[i]))
  {
    var w := Window(s, offset, limit);
    var r := Reverse(w);
    WindowOrdered(s, le, offset, limit);
    ReverseSameElements(w);
    forall i, j | 0 <= i < j < |r| ensures le(r[j], r[i]) {
      assert r[j] == w[|w| - 1 - j] && r[i] == w[|w| - 1 - i];
    }
  }

  /** No value occurs twice. */
  ghost predicate Distinct<T(!new)>(s: seq<T>) {
    forall x :: multiset(s)[x] <= 1
  }

  /** `key` is a primary key of `s`: no row occurs twice and a key picks out one row. */
  ghost predicate KeyedBy<T(!new)>(s: seq<T>, key: T -> nat) {
    && Distinct(s)
    && forall x, y :: x in s && y in s && key(x) == key(y) ==> x == y
  }

  /** Any selection of rows from a keyed table is keyed. */
  lemma KeyedSub<T(!new)>(s: seq<T>, t: seq<T>, key: T -> nat)
    requires KeyedBy(s, key) && multiset(t) <= multiset(s)
    ensures KeyedBy(t, key)
  {
    DistinctSub(s, t);
    forall x | x in t ensures x in s {
      assert x in multiset(t);
    }
  }

  /** Appending a row with a key not yet used keeps the table keyed. */
  lemma KeyedAppend<T(!new)>(s: seq<T>, x: T, key: T -> nat)
    requires KeyedBy(s, key)
    requires forall y :: y in s ==> key(y) != key(x)
    ensures KeyedBy(s + [x], key)
  {
    assert multiset(s + [x]) == multiset(s) + multiset{x};
    assert forall y :: y in s ==> y != x;
    assert x !in multiset(s);
  }

  /** Replacing a row by one with the same key keeps the table keyed. */
  lemma KeyedReplace<T(!new)>(s: seq<T>, i: nat, v: T, key: T -> nat)
    requires KeyedBy(s, key) && i < |s| && key(v) == key(s[i])
    ensures KeyedBy(s[i := v], key)
  {
    var r := s[i := v];
    var rest := s[..i] + s[i + 1..];
    assert s == s[..i] + [s[i]] + s[i + 1..];
    assert r == s[..i] + [v] + s[i + 1..];
    assert multiset(s) == multiset(rest) + multiset{s[i]};
    assert multiset(r) == multiset(rest) + multiset{v};
    assert multiset(s)[s[i]] == multiset(rest)[s[i]] + 1;
    assert multiset(s)[s[i]] <= 1;
    assert multiset(rest)[s[i]] == 0;
    forall y | y in rest ensures y in s && y != v {
      assert y in multiset(rest);
      assert multiset(rest)[y] >= 1;
    }
    assert multiset(rest)[v] == 0;
    forall x ensures multiset(r)[x] <= 1 {
      assert multiset(s)[x] <= 1;
    }
    forall x, y | x in r && y in r && key(x) == key(y) ensures x == y {
      assert x == v || x in rest;
      assert y == v || y in rest;
    }
  }

  /** The first row satisfying `p` (what `scalar_one` returns when the filter is on a key). */
  function FindBy<T(!new)>(s: seq<T>, p: T -> bool): (r: Option<T>)
    ensures r.None? <==> forall x :: x in s ==> !p(x)
    ensures r.Some? ==> r.value in s && p(r.value)
  {
    if s == [] then None
    else if p(s[0]) then Some(s[0])
    else
      var r := FindBy(s[1..], p);
      assert forall x :: x in s ==> x == s[0] || x in s[1..];
      r
  }

  /** Position of the first row satisfying `p`, if any. */
  function IndexBy<T(!new)>(s: seq<T>, p: T -> bool): (r: Option<nat>)
    ensures r.None? <==> forall x :: x in s ==> !p(x)
    ensures r.Some? ==> r.value < |s| && p(s[r.value])
  {
    if s == [] then None
    else if p(s[0]) then Some(0)
    else
      match IndexBy(s[1..], p)
      case None =>
        assert forall x :: x in s ==> x == s[0] || x in s[1..];
        None
      case Some(k) => Some(k + 1)
  }

  /** Distinct, stated position by position. */
  lemma {:induction false} DistinctIndices<T(!new)>(s: seq<T>)
    ensures Distinct(s) <==> forall i, j :: 0 <= i < j < |s| ==> s[i] != s[j]
  {
    if s != [] {
      var t := s[1..];
      assert s == [s[0]] + t;
      DistinctIndices(t);
      assert multiset(s) == multiset{s[0]} + multiset(t);
      if Distinct(s) {
        assert multiset(s)[s[0]] <= 1;
        assert s[0] !in multiset(t);
        DistinctSub(s, t);
        forall i, j | 0 <= i < j < |s| ensures s[i] != s[j] {
          if i > 0 { assert s[i] == t[i - 1] && s[j] == t[j - 1]; } else { assert s[j] in t; }
        }
      }
      if forall i, j :: 0 <= i < j < |s| ==> s[i] != s[j] {
        forall i, j | 0 <= i < j < |t| ensures t[i] != t[j] {
          assert t[i] == s[i + 1] && t[j] == s[j + 1];
        }
        forall j | 0 <= j < |t| ensures t[j] != s[0] {
          assert t[j] == s[j + 1];
        }
        assert s[0] !in multiset(t);
        forall x ensures multiset(s)[x] <= 1 {
          assert multiset(s)[x] == multiset{s[0]}[x] + multiset(t)[x];
        }
      }
    }
  }

  lemma DistinctSub<T(!new)>(s: seq<T>, t: seq<T>)
    requires Distinct(s) && multiset(t) <= multiset(s)
    ensures Distinct(t)
  {
    forall x ensures multiset(t)[x] <= 1 {
      assert multiset(t)[x] <= multiset(s)[x];
    }
  }

  /** A sequence without repetitions has as many elements as its set. */
  lemma {:induction false} DistinctCard<T(!new)>(s: seq<T>)
    requires Distinct(s)
    ensures |set x | x in s| == |s|
  {
    if s != [] {
      assert s == [s[0]] + s[1..];
      assert multiset(s)[s[0]] == 1 + multiset(s[1..])[s[0]];
      assert s[0] !in s[1..];
      DistinctSub(s, s[1..]);
      DistinctCard(s[1..]);
      assert (set x | x in s) == {s[0]} + (set x | x in s[1..]);
    }
  }

  /** Two repetition-free sequences with the same elements have the same length. */
  lemma SameElementsSameLength<T(!new)>(s: seq<T>, t: seq<T>)
    requires Distinct(s) && Distinct(t)
    requires forall x :: x in s <==> x in t
    ensures |s| == |t|
  {
    DistinctCard(s);
    DistinctCard(t);
    assert (set x | x in s) == (set x | x in t);
  }

  // ---------------------------------------------------------------------
  // Stable sorting by an integer key.

  ghost predicate SortedBy<T>(s: seq<T>, key: T -> int) {
    forall i, j :: 0 <= i < j < |s| ==> key(s[i]) <= key(s[j])
  }

  /** `a` may precede `b`: a smaller key, or an equal key and a rank not larger. */
  ghost predicate LexLe<T>(a: T, b: T, key: T -> int, rank: T -> int) {
    key(a) < key(b) || (key(a) == key(b) && rank(a) <= rank(b))
  }

  /** Ordered by `key`, and by `rank` among elements with equal keys. */
  ghost predicate LexSortedBy<T>(s: seq<T>, key: T -> int, rank: T -> int) {
    forall i, j :: 0 <= i < j < |s| ==> LexLe(s[i], s[j], key, rank)
  }

  lemma LexPrepend<T>(a: T, t: seq<T>, key: T -> int, rank: T -> int)
    requires LexSortedBy(t, key, rank)
    requires forall y :: y in t ==> LexLe(a, y, key, rank)
    ensures LexSortedBy([a] + t, key, rank)
  {
    var r := [a] + t;
    forall i, j | 0 <= i < j < |r| ensures LexLe(r[i], r[j], key, rank) {
      assert r[j] == t[j - 1];
      if i > 0 { assert r[i] == t[i - 1]; }
    }
  }

  /** Puts `x` in front of the first element whose key is not smaller than its own. */
  function InsertBy<T>(x: T, s: seq<T>, key: T -> int): (r: seq<T>)
    ensures multiset(r) == multiset(s) + multiset{x}
  {
    if s == [] || key(x) <= key(s[0]) then [x] + s
    else
      assert s == [s[0]] + s[1..];
      [s[0]] + InsertBy(x, s[1..], key)
  }

  /** Python's `sorted(s, key=key)`: an ascending, stable sort. */
  function SortBy<T>(s: seq<T>, key: T -> int): (r: seq<T>)
    ensures multiset(r) == multiset(s)
    ensures |r| == |s|
    ensures SortedBy(r, key)
  {
    if s == [] then []
    else
      var t := SortBy(s[1..], key);
      assert s == [s[0]] + s[1..];
      InsertSorted(s[0], t, key);
      InsertBy(s[0], t, key)
  }

  lemma {:induction false} InsertSorted<T>(x: T, s: seq<T>, key: T -> int)
    requires SortedBy(s, key)
    ensures SortedBy(InsertBy(x, s, key), key)
  {
    if s == [] || key(x) <= key(s[0]) {
      forall y | y in s ensures key(x) <= key(y) {
        var j :| 0 <= j < |s| && s[j] == y;
        if j > 0 { assert key(s[0]) <= key(s[j]); }
      }
      SortedPrepend(x, s, key);
    } else {
      assert s == [s[0]] + s[1..];
      assert SortedBy(s[1..], key);
      InsertSorted(x, s[1..], key);
      var t := InsertBy(x, s[1..], key);
      forall y | y in t ensures key(s[0]) <= key(y) {
        assert y in multiset(t);
        if y != x {
          assert y in multiset(s[1..]);
          var j :| 0 <= j < |s[1..]| && s[1..][j] == y;
          assert s[j + 1] == y;
        }
      }
      SortedPrepend(s[0], t, key);
    }
  }

  lemma SortedPrepend<T>(a: T, t: seq<T>, key: T -> int)
    requires SortedBy(t, key)
    requires forall y :: y in t ==> key(a) <= key(y)
    ensures SortedBy([a] + t, key)
  {
    var r := [a] + t;
    forall i, j | 0 <= i < j < |r| ensures key(r[i]) <= key(r[j]) {
      assert r[j] == t[j - 1];
      if i > 0 { assert r[i] == t[i - 1]; }
    }
  }

  lemma {:induction false} InsertLex<T>(x: T, s: seq<T>, key: T -> int, rank: T -> int)
    requires LexSortedBy(s, key, rank)
    requires forall y :: y in s ==> rank(x) <= rank(y)
    ensures LexSortedBy(InsertBy(x, s, key), key, rank)
  {
    if s == [] || key(x) <= key(s[0]) {
      forall y | y in s ensures LexLe(x, y, key, rank) {
        var j :| 0 <= j < |s| && s[j] == y;
        if j > 0 { assert LexLe(s[0], s[j], key, rank); }
      }
      LexPrepend(x, s, key, rank);
    } else {
      assert s == [s[0]] + s[1..];
      assert LexSortedBy(s[1..], key, rank) by {
        forall i, j | 0 <= i < j < |s[1..]| ensures LexLe(s[1..][i], s[1..][j], key, rank) {
          assert LexLe(s[i + 1], s[j + 1], key, rank);
        }
      }
      InsertLex(x, s[1..], key, rank);
      var t := InsertBy(x, s[1..], key);
      forall y | y in t ensures LexLe(s[0], y, key, rank) {
        assert y in multiset(t);
        if y != x {
          assert y in multiset(s[1..]);
          var j :| 0 <= j < |s[1..]| && s[1..][j] == y;
          assert LexLe(s[0], s[j + 1], key, rank);
        }
      }
      LexPrepend(s[0], t, key, rank);
    }
  }

  /** Stability: sorting an input already ordered by `rank` leaves equal keys in `rank` order. */
  lemma {:induction false} SortByStable<T>(s: seq<T>, key: T -> int, rank: T -> int)
    requires SortedBy(s, rank)
    ensures LexSortedBy(SortBy(s, key), key, rank)
  {
    if s != [] {
      assert SortedBy(s[1..], rank);
      SortByStable(s[1..], key, rank);
      var t := SortBy(s[1..], key);
      forall y | y in t ensures rank(s[0]) <= rank(y) {
        assert y in multiset(s[1..]);
        var j :| 0 <= j < |s[1..]| && s[1..][j] == y;
        assert s[j + 1] == y;
      }
      InsertLex(s[0], t, key, rank);
    }
  }

  lemma SortBySameElements<T>(s: seq<T>, key: T -> int)
    ensures forall x :: x in SortBy(s, key) <==> x in s
  {
    var r := SortBy(s, key);
    forall x ensures x in r <==> x in s {
      assert x in r <==> x in multiset(r);
      assert x in s <==> x in multiset(s);
    }
  }

  /** `a` may come before `b` under `ORDER BY key`, or under
      `ORDER BY key DESC` when `desc`. */
  predicate Precedes<T>(a: T, b: T, key: T -> int, desc: bool) {
    if desc then key(b) <= key(a) else key(a) <= key(b)
  }

  /** `s` is in `ORDER BY key` order (`DESC` when `desc`). */
  ghost predicate OrderedBy<T>(s: seq<T>, key: T -> int, desc: bool) {
    forall i, j :: 0 <= i < j < |s| ==> Precedes(s[i], s[j], key, desc)
  }

  /** `ORDER BY key` or `ORDER BY key DESC`. */
  function OrderBy<T>(s: seq<T>, key: T -> int, desc: bool): (r: seq<T>)
    ensures multiset(r) == multiset(s)
    ensures OrderedBy(r, key, desc)
  {
    if desc then
      var r := SortBy(s, x => -key(x));
      assert forall i, j :: 0 <= i < j < |r| ==> -key(r[i]) <= -key(r[j]);
      r
    else SortBy(s, key)
  }

  /** An OFFSET/LIMIT window cuts an ordered sequence in three: the rows it
      skips, the window, and the rows after it. A skipped row comes no later
      in the order than any row of the window, and a row after the window
      no earlier. */
  lemma WindowSplit<T>(s: seq<T>, key: T -> int, desc: bool, offset: nat, limit: nat)
    requires OrderedBy(s, key, desc)
    ensures s == Window(s, 0, offset) + Window(s, offset, limit) + Window(s, offset + limit, |s|)
    ensures forall x, y :: x in Window(s, 0, offset) && y in Window(s, offset, limit) ==> Precedes(x, y, key, desc)
    ensures forall x, y :: x in Window(s, offset, limit) && y in Window(s, offset + limit, |s|) ==>
      Precedes(x, y, key, desc)
  {
    var lo := Min(offset, |s|);
    var hi := Min(offset + limit, |s|);
    var skipped, page, rest := s[..lo], s[lo..hi], s[hi..];
    assert Window(s, 0, offset) == skipped;
    assert Window(s, offset, limit) == page;
    assert Window(s, offset + limit, |s|) == rest;
    assert s == skipped + page + rest;
    assert s[lo..] == page + rest && s[..hi] == skipped + page;
    forall x, y | x in skipped && y in page ensures Precedes(x, y, key, desc) {
      SplitPrecedes(s, key, desc, lo, x, y);
    }
    forall x, y | x in page && y in rest ensures Precedes(x, y, key, desc) {
      SplitPrecedes(s, key, desc, hi, x, y);
    }
  }

  /** A first page (no offset) of an ordered sequence leads it: a row left
      out comes no earlier in the order than any row on the page. */
  lemma FirstWindowLeads<T>(s: seq<T>, key: T -> int, desc: bool, limit: nat)
    requires OrderedBy(s, key, desc)
    ensures forall x, y :: x in s && x !in Window(s, 0, limit) && y in Window(s, 0, limit) ==>
      Precedes(y, x, key, desc)
  {
    var hi := Min(limit, |s|);
    assert Window(s, 0, limit) == s[..hi];
    assert s == s[..hi] + s[hi..];
    forall x, y | x in s && x !in s[..hi] && y in s[..hi] ensures Precedes(y, x, key, desc) {
      SplitPrecedes(s, key, desc, hi, y, x);
    }
  }

  /** In an ordered sequence a row before a cut precedes a row after it. */
  lemma SplitPrecedes<T>(s: seq<T>, key: T -> int, desc: bool, mid: nat, x: T, y: T)
    requires OrderedBy(s, key, desc) && mid <= |s| && x in s[..mid] && y in s[mid..]
    ensures Precedes(x, y, key, desc)
  {
    var i :| 0 <= i < mid && s[..mid][i] == x;
    var j :| 0 <= j < |s| - mid && s[mid..][j] == y;
    assert s[i] == x && s[mid + j] == y;
  }

  /** `s` with the row keyed `k` replaced by `v` (an UPDATE by primary key). */
  function ReplaceKeyed<T>(s: seq<T>, key: T -> nat, k: nat, v: T): (r: seq<T>)
    ensures |r| == |s|
    ensures forall i :: 0 <= i < |r| ==> r[i] == if key(s[i]) == k then v else s[i]
  {
    seq(|s|, i requires 0 <= i < |s| => if key(s[i]) == k then v else s[i])
  }

  /** In a keyed table the replacement touches exactly one position. */
  lemma ReplaceKeyedAt<T(!new)>(s: seq<T>, key: T -> nat, k: nat, v: T, i: nat)
    requires KeyedBy(s, key) && i < |s| && key(s[i]) == k
    ensures ReplaceKeyed(s, key, k, v) == s[i := v]
  {
    DistinctIndices(s);
    forall j | 0 <= j < |s| && key(s[j]) == k ensures j == i {
      assert s[j] in s && s[i] in s;
    }
  }

  /** A prefix cut from a sorted sequence holds its least elements: anything
      left out has a key no smaller than anything kept. */
  lemma PrefixHoldsLeast<T>(s: seq<T>, key: T -> int, limit: nat)
    requires SortedBy(s, key)
    ensures forall x, y :: x in s && x !in Window(s, 0, limit) && y in Window(s, 0, limit) ==> key(y) <= key(x)
  {
    var w := Window(s, 0, limit);
    forall x, y | x in s && x !in w && y in w ensures key(y) <= key(x) {
      var j :| 0 <= j < |s| && s[j] == x;
      var i :| 0 <= i < |w| && w[i] == y;
      assert forall k :: 0 <= k < |w| ==> s[k] == w[k];
      assert forall k :: 0 <= k < |w| ==> w[k] != x;
      assert i < j;
    }
  }

  /** At most one row of a keyed table satisfies a test that fixes the key. */
  lemma AtMostOneWithKey<T(!new)>(s: seq<T>, key: T -> nat, p: T -> bool, k: nat)
    requires KeyedBy(s, key)
    requires forall x :: p(x) ==> key(x) == k
    ensures |Filter(s, p)| <= 1
  {
    var f := Filter(s, p);
    KeyedSub(s, f, key);
    if |f| > 0 {
      assert (set y | y in f) == {f[0]};
      DistinctCard(f);
    }
  }
}
