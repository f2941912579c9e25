/**
 * The array operations the library builds its answers from: `filter`
 * (keeps order), the stable `sort` of the JavaScript runtime with a
 * comparator, and `slice(0, end)`.
 */
module Sorting {
  import opened Text

  // ---------------------------------------------------------------------
  // filter
  // ---------------------------------------------------------------------

  /**
   * `s.filter(x => p(x, arg))`. Each element is kept exactly as often as it
   * occurs in `s` when it satisfies the predicate, and dropped otherwise.
   */
  function Filter<T(==,!new), A>(s: seq<T>, p: (T, A) -> bool, arg: A): (r: seq<T>)
    ensures |r| <= |s|
    decreases |s|
  {
    if s == [] then []
    else
      var last := s[|s| - 1];
      Filter(s[..|s| - 1], p, arg) + (if p(last, arg) then [last] else [])
  }

  /**
   * Filtering keeps exactly the elements that satisfy the predicate, each as
   * often as it occurs in the input.
   */
  lemma {:induction false} FilterMultiset<T(!new), A>(s: seq<T>, p: (T, A) -> bool, arg: A)
    ensures forall x :: multiset(Filter(s, p, arg))[x] == if p(x, arg) then multiset(s)[x] else 0
    ensures forall x :: x in Filter(s, p, arg) <==> x in s && p(x, arg)
    decreases |s|
  {
    if s != [] {
      var init, last := s[..|s| - 1], s[|s| - 1];
      FilterMultiset(init, p, arg);
      FilterLast(s, p, arg);
      assert s == init + [last];
      assert multiset(s) == multiset(init) + multiset{last};
    }
  }

  /** Filtering keeps the order of the input: it distributes over concatenation. */
  lemma {:induction false} FilterAppend<T(!new), A>(s: seq<T>, t: seq<T>, p: (T, A) -> bool, arg: A)
    ensures Filter(s + t, p, arg) == Filter(s, p, arg) + Filter(t, p, arg)
    decreases |t|
  {
    if t != [] {
      var init, last := t[..|t| - 1], t[|t| - 1];
      var kept := if p(last, arg) then [last] else [];
      calc {
        Filter(s + t, p, arg);
        { FilterLast(s + t, p, arg);
          assert (s + t)[..|s + t| - 1] == s + init && (s + t)[|s + t| - 1] == last; }
        Filter(s + init, p, arg) + kept;
        { FilterAppend(s, init, p, arg); }
        Filter(s, p, arg) + Filter(init, p, arg) + kept;
        { FilterLast(t, p, arg); }
        Filter(s, p, arg) + Filter(t, p, arg);
      }
    } else {
      assert s + t == s;
    }
  }

  /** Filtering keeps everything when every element satisfies the predicate. */
  lemma {:induction false} FilterAll<T(!new), A>(s: seq<T>, p: (T, A) -> bool, arg: A)
    requires forall i :: 0 <= i < |s| ==> p(s[i], arg)
    ensures Filter(s, p, arg) == s
    decreases |s|
  {
    if s != [] {
      var init, last := s[..|s| - 1], s[|s| - 1];
      forall i | 0 <= i < |init| ensures p(init[i], arg) {
        assert init[i] == s[i];
      }
      assert p(last, arg);
      calc {
        Filter(s, p, arg);
        { FilterLast(s, p, arg); }
        Filter(init, p, arg) + [last];
        { FilterAll(init, p, arg); }
        init + [last];
        s;
      }
    }
  }

  /** Unfolds `Filter` once. */
  lemma FilterLast<T(!new), A>(s: seq<T>, p: (T, A) -> bool, arg: A)
    requires s != []
    ensures Filter(s, p, arg) == Filter(s[..|s| - 1], p, arg) + (if p(s[|s| - 1], arg) then [s[|s| - 1]] else [])
  {
  }

  /** Filtering a prefix one element longer adds at most that element. */
  lemma FilterSnoc<T(!new), A>(s: seq<T>, k: nat, p: (T, A) -> bool, arg: A)
    requires k < |s|
    ensures Filter(s[..k + 1], p, arg) == Filter(s[..k], p, arg) + (if p(s[k], arg) then [s[k]] else [])
  {
    assert s[..k + 1][..k] == s[..k];
  }

  // ---------------------------------------------------------------------
  // Stable sort with a comparator
  // ---------------------------------------------------------------------

  /** `le` is total and transitive: a comparator the sort can rely on. */
  ghost predicate TotalPreorder<T(!new)>(le: (T, T) -> bool)
  {
    && (forall x, y :: le(x, y) || le(y, x))
    && (forall x, y, z :: le(x, y) && le(y, z) ==> le(x, z))
  }

  ghost predicate Sorted<T>(s: seq<T>, le: (T, T) -> bool)
  {
    forall i, j :: 0 <= i < j < |s| ==> le(s[i], s[j])
  }

  /**
   * Inserts `x` before the first element that sorts strictly after it, so
   * that `x` follows every element it ties with (stability).
   */
  function Insert<T(==)>(x: T, s: seq<T>, le: (T, T) -> bool): (r: seq<T>)
    ensures multiset(r) == multiset(s) + multiset{x}
  {
    if s == [] || !le(s[0], x) then [x] + s
    else
      assert s == [s[0]] + s[1..];
      [s[0]] + Insert(x, s[1..], le)
  }

  lemma {:induction false} InsertSorted<T(!new)>(x: T, s: seq<T>, le: (T, T) -> bool)
    requires TotalPreorder(le) && Sorted(s, le)
    ensures Sorted(Insert(x, s, le), le)
  {
    var r := Insert(x, s, le);
    if s == [] {
    } else if !le(s[0], x) {
      assert le(x, s[0]);
      forall j | 1 <= j < |r| ensures le(r[0], r[j]) {
        assert r[j] == s[j - 1];
        if j > 1 { assert le(s[0], s[j - 1]); }
      }
    } else {
      InsertSorted(x, s[1..], le);
      var tail := Insert(x, s[1..], le);
      assert r == [s[0]] + tail;
      forall j | 0 <= j < |tail| ensures le(s[0], tail[j]) {
        assert tail[j] in multiset(tail);
        assert tail[j] in multiset(s[1..]) || tail[j] == x;
        if tail[j] != x {
          var m :| 0 <= m < |s[1..]| && s[1..][m] == tail[j];
          assert s[m + 1] == tail[j];
        }
      }
    }
  }

  /**
   * `s.sort(cmp)` where `le(a, b)` holds when `cmp(a, b) <= 0`: the result
   * is ordered by `le` and is a permutation of the input.
   */
  function SortBy<T(==,!new)>(s: seq<T>, le: (T, T) -> bool): (r: seq<T>)
    requires TotalPreorder(le)
    ensures Sorted(r, le)
    ensures multiset(r) == multiset(s)
    decreases |s|
  {
    if s == [] then []
    else
      var rest := SortBy(s[..|s| - 1], le);
      InsertSorted(s[|s| - 1], rest, le);
      assert s == s[..|s| - 1] + [s[|s| - 1]];
      Insert(s[|s| - 1], rest, le)
  }

  // ---------------------------------------------------------------------
  // slice(0, end)
  // ---------------------------------------------------------------------

  /**
   * Where `slice(0, end)` stops on an array of length `len`: a negative
   * `end` counts back from the end, and the result is clamped to `[0, len]`.
   */
  function SliceEnd(len: nat, end: int): (k: nat)
    ensures k <= len
    ensures 0 <= end ==> k == if end < len then end else len
    ensures end < 0 ==> k == if len + end < 0 then 0 else len + end
  {
    if end < 0 then (if len + end < 0 then 0 else len + end)
    else if end < len then end
    else len
  }

  /**
   * A prefix of a sorted permutation of `s` is sorted, is contained in `s`,
   * and every element of `s` outside the prefix sorts no earlier than any
   * element inside it.
   */
  lemma SortedPrefix<T>(s: seq<T>, sorted: seq<T>, k: nat, le: (T, T) -> bool)
    requires Sorted(sorted, le) && multiset(sorted) == multiset(s) && k <= |sorted|
    ensures Sorted(sorted[..k], le)
    ensures multiset(sorted[..k]) <= multiset(s)
    ensures forall x, y :: x in multiset(s) - multiset(sorted[..k]) && y in sorted[..k] ==> le(y, x)
  {
    assert sorted == sorted[..k] + sorted[k..];
    assert multiset(s) - multiset(sorted[..k]) == multiset(sorted[k..]);
    forall x, y | x in multiset(s) - multiset(sorted[..k]) && y in sorted[..k] ensures le(y, x) {
      assert x in sorted[k..];
      var b :| 0 <= b < |sorted[k..]| && sorted[k..][b] == x;
      var a :| 0 <= a < k && sorted[..k][a] == y;
      assert sorted[a] == y && sorted[k + b] == x;
    }
  }

  /** Every element of `s` that `r` leaves out comes no earlier under `le` than every element `r` keeps. */
  ghost predicate KeepsFirst<T(!new)>(s: seq<T>, r: seq<T>, le: (T, T) -> bool)
  {
    forall x, y :: x in multiset(s) - multiset(r) && y in r ==> le(y, x)
  }

  /**
   * `s.sort(cmp).slice(0, limit)`: the first `limit` elements in comparator
   * order. No element left out sorts strictly before one that was kept.
   */
  function TopK<T(==,!new)>(s: seq<T>, le: (T, T) -> bool, limit: int): (r: seq<T>)
    requires TotalPreorder(le)
    ensures |r| == SliceEnd(|s|, limit)
    ensures Sorted(r, le)
    ensures multiset(r) <= multiset(s)
    ensures forall x :: x in r ==> x in s
    ensures KeepsFirst(s, r, le)
  {
    var sorted := SortBy(s, le);
    var k := SliceEnd(|s|, limit);
    assert |sorted| == |multiset(sorted)| == |multiset(s)| == |s|;
    SortedPrefix(s, sorted, k, le);
    assert forall x :: x in sorted[..k] ==> x in multiset(s);
    sorted[..k]
  }

  // ---------------------------------------------------------------------
  // [...new Set(strings)].sort()
  // ---------------------------------------------------------------------

  /** Strictly ascending in the ordinal order, hence free of duplicates. */
  ghost predicate StrictlySorted(s: seq<string>)
  {
    forall i, j :: 0 <= i < j < |s| ==> Less(s[i], s[j])
  }

  /** Adds `x` to a strictly ascending list unless it is already there. */
  function InsertDistinct(x: string, s: seq<string>): (r: seq<string>)
    ensures forall y :: y in r <==> y in s || y == x
  {
    if s == [] then [x]
    else if x == s[0] then s
    else if Less(x, s[0]) then [x] + s
    else [s[0]] + InsertDistinct(x, s[1..])
  }

  lemma {:induction false} InsertDistinctSorted(x: string, s: seq<string>)
    requires StrictlySorted(s)
    ensures StrictlySorted(InsertDistinct(x, s))
  {
    var r := InsertDistinct(x, s);
    if s == [] || x == s[0] {
    } else if Less(x, s[0]) {
      forall j | 1 <= j < |r| ensures Less(r[0], r[j]) {
        assert r[j] == s[j - 1];
        if j > 1 { LessTransitive(x, s[0], s[j - 1]); }
      }
    } else {
      InsertDistinctSorted(x, s[1..]);
      var tail := InsertDistinct(x, s[1..]);
      LessTotal(x, s[0]);
      forall j | 0 <= j < |tail| ensures Less(s[0], tail[j]) {
        assert tail[j] in tail;
        if tail[j] != x {
          var m :| 0 <= m < |s[1..]| && s[1..][m] == tail[j];
          assert s[m + 1] == tail[j];
        }
      }
    }
  }

  /**
   * `[...new Set(s)].sort()`: the distinct strings of `s` in ascending
   * order. It holds exactly the strings of `s`, each once.
   */
  function SortedDistinct(s: seq<string>): (r: seq<string>)
    ensures StrictlySorted(r)
    ensures forall x :: x in r <==> x in s
    decreases |s|
  {
    if s == [] then []
    else
      var rest := SortedDistinct(s[..|s| - 1]);
      InsertDistinctSorted(s[|s| - 1], rest);
      assert s == s[..|s| - 1] + [s[|s| - 1]];
      InsertDistinct(s[|s| - 1], rest)
  }

  /**
   * A strictly ascending list is determined by its elements, so any way of
   * de-duplicating and sorting gives the same list.
   */
  lemma {:induction false} StrictlySortedUnique(r: seq<string>, t: seq<string>)
    requires StrictlySorted(r) && StrictlySorted(t)
    requires forall x :: x in r <==> x in t
    ensures r == t
    decreases |r|
  {
    assert (r == []) == (t == []) by {
      if r != [] { assert r[0] in r; }
      if t != [] { assert t[0] in t; }
    }
    if r != [] {
      // The heads are both the least element.
      assert r[0] in r && t[0] in t;
      if r[0] != t[0] {
        var i :| 0 <= i < |t| && t[i] == r[0];
        var j :| 0 <= j < |r| && r[j] == t[0];
        assert i > 0 && j > 0;
        LessAsymmetric(r[0], t[0]);
        assert false;
      }
      forall x ensures x in r[1..] <==> x in t[1..] {
        if x in r[1..] {
          var k :| 0 <= k < |r[1..]| && r[1..][k] == x;
          assert Less(r[0], r[k + 1]);
          LessIrreflexive(x);
          assert x in t && x != t[0];
          var m :| 0 <= m < |t| && t[m] == x;
          assert t[1..][m - 1] == x;
        }
        if x in t[1..] {
          var k :| 0 <= k < |t[1..]| && t[1..][k] == x;
          assert Less(t[0], t[k + 1]);
          LessIrreflexive(x);
          assert x in r && x != r[0];
          var m :| 0 <= m < |r| && r[m] == x;
          assert r[1..][m - 1] == x;
        }
      }
      StrictlySortedUnique(r[1..], t[1..]);
      assert r == [r[0]] + r[1..] && t == [t[0]] + t[1..];
    }
  }
}
