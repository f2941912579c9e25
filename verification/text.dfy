/**
 * Strings as the library sees them: ASCII case mapping (`toLowerCase`,
 * `toUpperCase`), substring containment (`includes`), first-occurrence
 * replacement (`replace` with a string pattern) and the one ordinal order on
 * strings that both `localeCompare` and the default `sort()` are modelled by.
 */
module Text {

  // ---------------------------------------------------------------------
  // Case mapping (ASCII letters only)
  // ---------------------------------------------------------------------

  function LowerChar(c: char): char
  {
    if 'A' <= c <= 'Z' then (c as int + 32) as char else c
  }

  function UpperChar(c: char): char
  {
    if 'a' <= c <= 'z' then (c as int - 32) as char else c
  }

  /** `s.toLowerCase()`: no upper-case letter is left, and nothing but upper-case letters changes. */
  function Lower(s: string): (r: string)
    ensures |r| == |s|
    ensures forall i :: 0 <= i < |r| ==> !('A' <= r[i] <= 'Z')
    ensures forall i :: 0 <= i < |s| && !('A' <= s[i] <= 'Z') ==> r[i] == s[i]
  {
    seq(|s|, i requires 0 <= i < |s| => LowerChar(s[i]))
  }

  /** `s.toUpperCase()`: no lower-case letter is left, and nothing but lower-case letters changes. */
  function Upper(s: string): (r: string)
    ensures |r| == |s|
    ensures forall i :: 0 <= i < |r| ==> !('a' <= r[i] <= 'z')
    ensures forall i :: 0 <= i < |s| && !('a' <= s[i] <= 'z') ==> r[i] == s[i]
  {
    seq(|s|, i requires 0 <= i < |s| => UpperChar(s[i]))
  }

  /** Lower-casing a lower-cased string again changes nothing. */
  lemma LowerIdempotent(s: string)
    ensures Lower(Lower(s)) == Lower(s)
  {
  }

  /** Upper-casing is idempotent: a normalised country code is its own normal form. */
  lemma UpperIdempotent(s: string)
    ensures Upper(Upper(s)) == Upper(s)
  {
  }

  /** Lower-casing forgets any earlier upper-casing: `lower(upper(q)) == lower(q)`. */
  lemma LowerOfUpper(s: string)
    ensures Lower(Upper(s)) == Lower(s)
  {
  }

  // ---------------------------------------------------------------------
  // Substrings
  // ---------------------------------------------------------------------

  /** `t` occurs in `s` starting at position `i`. */
  predicate OccursAt(s: string, t: string, i: int)
  {
    0 <= i && i + |t| <= |s| && s[i..i + |t|] == t
  }

  /** `s.includes(t)`: only a string no longer than `s` can occur in it, and the empty string always does. */
  predicate Contains(s: string, t: string): (b: bool)
    ensures b ==> |t| <= |s|
    ensures t == [] ==> b
  {
    assert t == [] ==> OccursAt(s, t, 0);
    exists i | 0 <= i <= |s| - |t| :: OccursAt(s, t, i)
  }

  /** A substring of a prefix is a substring of the whole string. */
  lemma ContainsExtend(a: string, b: string, t: string)
    requires Contains(a, t)
    ensures Contains(a + b, t)
  {
    var i :| 0 <= i <= |a| - |t| && OccursAt(a, t, i);
    assert (a + b)[i..i + |t|] == a[i..i + |t|];
    assert OccursAt(a + b, t, i);
  }

  /**
   * `s.indexOf(pat, k)`: the first position at or after `k` where `pat`
   * occurs, or -1 when there is none.
   */
  function IndexOf(s: string, pat: string, k: nat): (r: int)
    ensures r == -1 <==> forall i :: k <= i ==> !OccursAt(s, pat, i)
    ensures r != -1 ==> k <= r && OccursAt(s, pat, r) && forall j :: k <= j < r ==> !OccursAt(s, pat, j)
    decreases |s| - k
  {
    if k + |pat| > |s| then -1
    else if s[k..k + |pat|] == pat then
      assert OccursAt(s, pat, k);
      k
    else IndexOf(s, pat, k + 1)
  }

  /**
   * `s.replace(pat, rep)` with a string pattern: only the first occurrence
   * is replaced; without an occurrence the string is returned unchanged.
   */
  function ReplaceFirst(s: string, pat: string, rep: string): (r: string)
    ensures (forall i :: !OccursAt(s, pat, i)) ==> r == s
    ensures forall i :: OccursAt(s, pat, i) && (forall j :: 0 <= j < i ==> !OccursAt(s, pat, j)) ==>
              r == s[..i] + rep + s[i + |pat|..]
  {
    var i := IndexOf(s, pat, 0);
    if i < 0 then s else s[..i] + rep + s[i + |pat|..]
  }

  /** A pattern whose first character is absent from `s` never occurs in it, so `s` is left unchanged. */
  lemma ReplaceAbsent(s: string, pat: string, rep: string)
    requires pat != [] && pat[0] !in s
    ensures ReplaceFirst(s, pat, rep) == s
  {
    forall i | 0 <= i < |s| ensures s[i] != pat[0] {
      assert s[i] in s;
    }
  }

  /**
   * A text whose only possible start of the pattern is another placeholder
   * `q`, differing from the pattern in its second character, is left unchanged.
   */
  lemma ReplaceOtherAbsent(a: string, q: string, b: string, pat: string, rep: string)
    requires |pat| >= 2 && |q| >= 2 && q[0] == pat[0] && q[1] != pat[1]
    requires pat[0] !in a && pat[0] !in q[1..] && pat[0] !in b
    ensures ReplaceFirst(a + q + b, pat, rep) == a + q + b
  {
    OtherNeverOccurs(a, q, b, pat);
  }

  /** The occurrence-free part of `ReplaceOtherAbsent`. */
  lemma OtherNeverOccurs(a: string, q: string, b: string, pat: string)
    requires |pat| >= 2 && |q| >= 2 && q[0] == pat[0] && q[1] != pat[1]
    requires pat[0] !in a && pat[0] !in q[1..] && pat[0] !in b
    ensures forall i :: !OccursAt(a + q + b, pat, i)
  {
    var s := a + q + b;
    forall i ensures !OccursAt(s, pat, i) {
      if !(0 <= i && i + |pat| <= |s|) {
      } else if i < |a| {
        assert s[i..i + |pat|][0] == a[i];
      } else if i == |a| {
        assert s[i..i + |pat|][1] == q[1];
      } else if i < |a| + |q| {
        assert s[i..i + |pat|][0] == q[1..][i - |a| - 1];
      } else {
        assert s[i..i + |pat|][0] == b[i - |a| - |q|];
      }
    }
  }

  /** When the text before the pattern cannot start it, the first occurrence is the one after that text. */
  lemma ReplaceAfter(a: string, pat: string, b: string, rep: string)
    requires pat != [] && pat[0] !in a
    ensures ReplaceFirst(a + pat + b, pat, rep) == a + rep + b
  {
    var s := a + pat + b;
    assert s[|a|..|a| + |pat|] == pat;
    forall j | 0 <= j < |a| ensures !OccursAt(s, pat, j) {
      assert s[j] == a[j];
    }
    assert s[..|a|] == a && s[|a| + |pat|..] == b;
  }

  // ---------------------------------------------------------------------
  // Ordinal order on strings
  // ---------------------------------------------------------------------

  /** Lexicographic order on character codes: `a` sorts strictly before `b`. */
  predicate Less(a: string, b: string)
  {
    |b| > 0 && (|a| == 0 || a[0] < b[0] || (a[0] == b[0] && Less(a[1..], b[1..])))
  }

  predicate LessEq(a: string, b: string)
  {
    a == b || Less(a, b)
  }

  lemma {:induction false} LessIrreflexive(a: string)
    ensures !Less(a, a)
  {
    if |a| > 0 {
      LessIrreflexive(a[1..]);
    }
  }

  lemma {:induction false} LessAsymmetric(a: string, b: string)
    ensures Less(a, b) ==> !Less(b, a)
  {
    if |a| > 0 && |b| > 0 && a[0] == b[0] {
      LessAsymmetric(a[1..], b[1..]);
    }
  }

  lemma {:induction false} LessTransitive(a: string, b: string, c: string)
    requires Less(a, b) && Less(b, c)
    ensures Less(a, c)
  {
    if |a| > 0 && a[0] == b[0] && b[0] == c[0] {
      LessTransitive(a[1..], b[1..], c[1..]);
    }
  }

  lemma {:induction false} LessTotal(a: string, b: string)
    ensures a == b || Less(a, b) || Less(b, a)
  {
    if |a| > 0 && |b| > 0 && a[0] == b[0] {
      LessTotal(a[1..], b[1..]);
      if a[1..] == b[1..] {
        assert a == [a[0]] + a[1..] && b == [b[0]] + b[1..];
      }
    }
  }

  /** `LessEq` is a total order: reflexive, antisymmetric, transitive and total. */
  lemma LessEqTotalOrder()
    ensures forall a, b :: LessEq(a, b) || LessEq(b, a)
    ensures forall a, b :: LessEq(a, b) && LessEq(b, a) ==> a == b
    ensures forall a, b, c :: LessEq(a, b) && LessEq(b, c) ==> LessEq(a, c)
  {
    forall a, b ensures LessEq(a, b) || LessEq(b, a) {
      LessTotal(a, b);
    }
    forall a, b | LessEq(a, b) && LessEq(b, a) ensures a == b {
      LessAsymmetric(a, b);
    }
    forall a, b, c | LessEq(a, b) && LessEq(b, c) ensures LessEq(a, c) {
      if a != b && b != c {
        LessTransitive(a, b, c);
      }
    }
  }

  /**
   * `a.localeCompare(b)`, modelled on the ordinal order: zero exactly for
   * equal strings, negative exactly when `a` sorts first.
   */
  function Compare(a: string, b: string): (r: int)
    ensures r == 0 <==> a == b
    ensures r < 0 <==> Less(a, b)
    ensures r > 0 <==> Less(b, a)
  {
    LessIrreflexive(a);
    LessAsymmetric(a, b);
    LessTotal(a, b);
    if a == b then 0 else if Less(a, b) then -1 else 1
  }

  /** `parts.join(sep)` */
  function Join(parts: seq<string>, sep: string): (r: string)
    ensures parts == [] ==> r == ""
    ensures |parts| == 1 ==> r == parts[0]
  {
    if |parts| == 0 then ""
    else if |parts| == 1 then parts[0]
    else parts[0] + sep + Join(parts[1..], sep)
  }

  // Regroup3, Regroup5 and Regroup7 are proof steps only: they state associativity apart
  // from any `ReplaceFirst` term, where the regrouping would be expensive to prove.

  /** Concatenation is associative: the text after a fixed start can be grouped apart. */
  lemma Regroup3(x: string, q1: string, q2: string, q3: string)
    ensures x + q1 + q2 + q3 == x + (q1 + q2 + q3)
  {
    assert x + q1 + q2 == x + (q1 + q2);
  }

  /** Concatenation is associative: the text after a fixed start can be grouped apart. */
  lemma Regroup5(x: string, q1: string, q2: string, q3: string, q4: string, q5: string)
    ensures x + (q1 + q2 + q3 + q4 + q5) == x + q1 + q2 + (q3 + q4 + q5)
  {
    assert q1 + q2 + q3 + q4 + q5 == q1 + q2 + (q3 + q4 + q5);
    assert x + (q1 + q2 + (q3 + q4 + q5)) == x + q1 + q2 + (q3 + q4 + q5);
  }

  /** Concatenation is associative: the text after a fixed start can be grouped apart. */
  lemma Regroup7(x: string, q1: string, q2: string, q3: string, q4: string, q5: string, q6: string, q7: string)
    ensures x + q1 + q2 + q3 + q4 + q5 + q6 + q7 == x + (q1 + q2 + q3 + q4 + q5 + q6 + q7)
    ensures x + (q1 + q2 + q3 + q4 + q5 + q6 + q7) == x + q1 + q2 + (q3 + q4 + q5 + q6 + q7)
  {
    assert x + q1 + q2 == x + (q1 + q2);
    assert x + (q1 + q2) + q3 == x + (q1 + q2 + q3);
    assert x + (q1 + q2 + q3) + q4 == x + (q1 + q2 + q3 + q4);
    assert x + (q1 + q2 + q3 + q4) + q5 == x + (q1 + q2 + q3 + q4 + q5);
    assert x + (q1 + q2 + q3 + q4 + q5) + q6 == x + (q1 + q2 + q3 + q4 + q5 + q6);
    assert x + (q1 + q2 + q3 + q4 + q5 + q6) + q7 == x + (q1 + q2 + q3 + q4 + q5 + q6 + q7);
  }

  /** Two parts are joined with the separator between them. */
  lemma JoinTwo(a: string, b: string, sep: string)
    ensures Join([a, b], sep) == a + sep + b
  {
    assert [a, b][1..] == [b];
  }
}
