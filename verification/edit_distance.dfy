/**
 * Levenshtein edit distance: unit-cost insertion, deletion and
 * substitution. `Distance` is the reference recurrence; the method
 * `LevenshteinDistance` fills the dynamic-programming matrix row by row,
 * as the library does, and is proved to compute it.
 */
module EditDistance {

  function Min3(x: int, y: int, z: int): (m: int)
    ensures m <= x && m <= y && m <= z
    ensures m == x || m == y || m == z
  {
    if x <= y && x <= z then x else if y <= z then y else z
  }

  /**
   * The edit distance between `a` and `b`, by the recurrence on their last
   * characters. It is never less than the difference of the lengths and
   * never more than the longer length.
   */
  function Distance(a: string, b: string): (d: nat)
    ensures |a| - |b| <= d && |b| - |a| <= d
    ensures d <= if |a| < |b| then |b| else |a|
    decreases |a| + |b|
  {
    if |a| == 0 then |b|
    else if |b| == 0 then |a|
    else
      var cost := if a[|a| - 1] == b[|b| - 1] then 0 else 1;
      Min3(Distance(a[..|a| - 1], b) + 1,
           Distance(a, b[..|b| - 1]) + 1,
           Distance(a[..|a| - 1], b[..|b| - 1]) + cost)
  }

  /** What cell `[j, i]` of the matrix holds: the distance between the prefixes. */
  ghost function Cell(a: string, b: string, i: nat, j: nat): nat
    requires i <= |a| && j <= |b|
  {
    Distance(a[..i], b[..j])
  }

  /** One cell of the matrix: the recurrence stated on prefixes. */
  lemma CellStep(a: string, b: string, i: nat, j: nat)
    requires 1 <= i <= |a| && 1 <= j <= |b|
    ensures Cell(a, b, i, j) ==
              Min3(Cell(a, b, i - 1, j) + 1,
                   Cell(a, b, i, j - 1) + 1,
                   Cell(a, b, i - 1, j - 1) + (if a[i - 1] == b[j - 1] then 0 else 1))
  {
    assert a[..i][..i - 1] == a[..i - 1];
    assert b[..j][..j - 1] == b[..j - 1];
  }

  /** The borders of the matrix: distances to and from the empty prefix. */
  lemma CellBorder(a: string, b: string, i: nat, j: nat)
    requires i <= |a| && j <= |b|
    ensures Cell(a, b, i, 0) == i && Cell(a, b, 0, j) == j
  {
  }

  /**
   * `levenshteinDistance(a, b)`: the empty-string shortcuts first, then the
   * `(|b| + 1) x (|a| + 1)` matrix whose cell `[j, i]` ends up holding the
   * distance between the first `i` characters of `a` and the first `j` of `b`.
   */
  method LevenshteinDistance(a: string, b: string) returns (d: nat)
    ensures d == Distance(a, b)
  {
    if |a| == 0 { return |b|; }
    if |b| == 0 { return |a|; }

    var matrix := new nat[|b| + 1, |a| + 1];
    for i := 0 to |a| + 1
      invariant forall ii :: 0 <= ii < i ==> matrix[0, ii] == ii
    {
      matrix[0, i] := i;
    }
    for j := 0 to |b| + 1
      invariant forall ii :: 0 <= ii <= |a| ==> matrix[0, ii] == ii
      invariant forall jj :: 0 <= jj < j ==> matrix[jj, 0] == jj
    {
      matrix[j, 0] := j;
    }
    forall ii | 0 <= ii <= |a| ensures matrix[0, ii] == Cell(a, b, ii, 0) {
      CellBorder(a, b, ii, 0);
    }

    for j := 1 to |b| + 1
      invariant Filled(matrix, a, b, j)
      invariant forall jj :: j <= jj <= |b| ==> matrix[jj, 0] == jj
    {
      FillRow(matrix, a, b, j);
    }
    assert a[..|a|] == a && b[..|b|] == b;
    d := matrix[|b|, |a|];
  }

  /** Rows `0 .. rows - 1` of the matrix hold the distances between prefixes. */
  ghost predicate Filled(matrix: array2<nat>, a: string, b: string, rows: nat)
    reads matrix
    requires matrix.Length0 == |b| + 1 && matrix.Length1 == |a| + 1 && rows <= |b| + 1
  {
    forall jj, ii :: 0 <= jj < rows && 0 <= ii <= |a| ==> matrix[jj, ii] == Cell(a, b, ii, jj)
  }

  /** The inner loop of `levenshteinDistance`: fills row `j` from the row above it. */
  method FillRow(matrix: array2<nat>, a: string, b: string, j: nat)
    requires matrix.Length0 == |b| + 1 && matrix.Length1 == |a| + 1 && 1 <= j <= |b|
    requires Filled(matrix, a, b, j) && matrix[j, 0] == j
    modifies matrix
    ensures Filled(matrix, a, b, j + 1)
    ensures forall jj :: j < jj <= |b| ==> matrix[jj, 0] == old(matrix[jj, 0])
  {
    CellBorder(a, b, 0, j);
    for i := 1 to |a| + 1
      invariant Filled(matrix, a, b, j)
      invariant forall ii :: 0 <= ii < i ==> matrix[j, ii] == Cell(a, b, ii, j)
      invariant forall jj :: j < jj <= |b| ==> matrix[jj, 0] == old(matrix[jj, 0])
    {
      var cost := if a[i - 1] == b[j - 1] then 0 else 1;
      CellStep(a, b, i, j);
      matrix[j, i] := Min3(matrix[j, i - 1] + 1, matrix[j - 1, i] + 1, matrix[j - 1, i - 1] + cost);
    }
  }

  // ---------------------------------------------------------------------
  // Properties of the distance
  // ---------------------------------------------------------------------

  /** The distance does not depend on the order of its arguments. */
  lemma {:induction false} DistanceSymmetric(a: string, b: string)
    ensures Distance(a, b) == Distance(b, a)
    decreases |a| + |b|
  {
    if |a| > 0 && |b| > 0 {
      DistanceSymmetric(a[..|a| - 1], b);
      DistanceSymmetric(a, b[..|b| - 1]);
      DistanceSymmetric(a[..|a| - 1], b[..|b| - 1]);
    }
  }

  /** The distance is zero exactly between equal strings. */
  lemma {:induction false} DistanceZeroIff(a: string, b: string)
    ensures Distance(a, b) == 0 <==> a == b
    decreases |a| + |b|
  {
    if |a| > 0 && |b| > 0 {
      var a', b' := a[..|a| - 1], b[..|b| - 1];
      DistanceZeroIff(a', b');
      assert a == a' + [a[|a| - 1]] && b == b' + [b[|b| - 1]];
      if a == b {
        assert a' == b';
      }
    }
  }

  /** Appending `t` to a string costs exactly `|t|` insertions. */
  lemma {:induction false} DistanceAppend(a: string, t: string)
    ensures Distance(a, a + t) == |t|
    decreases |t|
  {
    if |t| == 0 {
      assert a + t == a;
      DistanceZeroIff(a, a);
    } else if |a| > 0 {
      var t' := t[..|t| - 1];
      DistanceAppend(a, t');
      assert (a + t)[..|a + t| - 1] == a + t';
    }
  }

  /** Number of positions where two strings of equal length differ. */
  function Mismatches(a: string, b: string): nat
    requires |a| == |b|
  {
    if |a| == 0 then 0
    else Mismatches(a[..|a| - 1], b[..|b| - 1]) + (if a[|a| - 1] == b[|b| - 1] then 0 else 1)
  }

  lemma {:induction false} DistanceMismatchesSelf(a: string)
    ensures Mismatches(a, a) == 0
  {
    if |a| > 0 {
      DistanceMismatchesSelf(a[..|a| - 1]);
    }
  }

  /** Substituting every differing character is always an option. */
  lemma {:induction false} DistanceAtMostMismatches(a: string, b: string)
    requires |a| == |b|
    ensures Distance(a, b) <= Mismatches(a, b)
  {
    if |a| > 0 {
      DistanceAtMostMismatches(a[..|a| - 1], b[..|b| - 1]);
    }
  }

  // The strings are parameters pinned by `requires` rather than literals in the
  // contract, which keeps the verifier from unfolding the functions on literal arguments.
  /** The typo "londun" is one edit from "london"; "londonnn" is two. */
  lemma LondonExamples(london: string, londun: string, londonnn: string)
    requires london == "london" && londun == "londun" && londonnn == "londonnn"
    ensures Distance(london, londun) == 1
    ensures Distance(london, londonnn) == 2
  {
    DistanceAtMostMismatches(london, londun);
    var lo, lu := london[..5], londun[..5];
    assert lo[..4] == lu[..4];
    DistanceMismatchesSelf(lo[..4]);
    assert Mismatches(lo, lu) == 1;
    assert Mismatches(london, londun) == 1;
    DistanceZeroIff(london, londun);
    assert londonnn == london + "nn";
    DistanceAppend(london, "nn");
  }
}
