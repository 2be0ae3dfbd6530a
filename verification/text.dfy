/**
 * The string operations behind the catalog's case-insensitive search:
 * `String.toLowerCase` (restricted to the ASCII letters) and
 * `String.contains`.
 */
module Text {

  /** An ASCII upper-case letter becomes its lower-case letter; every other character stays. */
  function LowerChar(c: char): (d: char)
    ensures 'A' <= c <= 'Z' ==> 'a' <= d <= 'z' && d as int - c as int == 32
    ensures !('A' <= c <= 'Z') ==> d == c
  {
    if 'A' <= c <= 'Z' then (c as int + 32) as char else c
  }

  /** `toLowerCase`: every character lowered, the length kept. */
  function ToLower(s: string): (r: string)
    ensures |r| == |s|
    ensures forall i :: 0 <= i < |r| ==> !('A' <= r[i] <= 'Z')
    ensures forall i :: 0 <= i < |s| && !('A' <= s[i] <= 'Z') ==> r[i] == s[i]
  {
    seq(|s|, i requires 0 <= i < |s| => LowerChar(s[i]))
  }

  /** `q` occurs in `s` starting at position `i`. */
  predicate OccursAt(q: string, s: string, i: int) {
    0 <= i <= |s| - |q| && s[i..i + |q|] == q
  }

  /** `s.contains(q)`: `q` occurs in `s` at some position. */
  predicate IsSubstring(q: string, s: string): (b: bool)
    ensures b ==> |q| <= |s|
    ensures OccursAt(q, s, 0) ==> b
  {
    exists i :: 0 <= i <= |s| - |q| && OccursAt(q, s, i)
  }

  /** `s.toLowerCase().contains(q.toLowerCase())`. */
  predicate ContainsIgnoreCase(s: string, q: string): (b: bool)
    ensures b ==> |q| <= |s|
    ensures q == [] ==> b
  {
    IsSubstring(ToLower(q), ToLower(s))
  }

  /** Lowering twice is lowering once. */
  lemma ToLowerIdempotent(s: string)
    ensures ToLower(ToLower(s)) == ToLower(s)
  {
    assert forall i :: 0 <= i < |s| ==> LowerChar(LowerChar(s[i])) == LowerChar(s[i]);
  }

  /** Lowering commutes with taking a slice. */
  lemma ToLowerSlice(s: string, i: int, j: int)
    requires 0 <= i <= j <= |s|
    ensures ToLower(s[i..j]) == ToLower(s)[i..j]
  {
    forall k | 0 <= k < j - i
      ensures ToLower(s[i..j])[k] == ToLower(s)[i..j][k]
    {
      assert s[i..j][k] == s[i + k];
    }
  }

  /** An occurrence of `a` inside an occurrence of `b` inside `c` is an occurrence of `a` in `c`. */
  lemma SubstringTransitive(a: string, b: string, c: string)
    requires IsSubstring(a, b) && IsSubstring(b, c)
    ensures IsSubstring(a, c)
  {
    var i :| 0 <= i <= |b| - |a| && OccursAt(a, b, i);
    var j :| 0 <= j <= |c| - |b| && OccursAt(b, c, j);
    forall k | 0 <= k < |a|
      ensures c[j + i + k] == a[k]
    {
      assert a[k] == b[i..i + |a|][k] == b[i + k];
      assert b[i + k] == c[j..j + |b|][i + k] == c[j + i + k];
    }
    assert c[j + i..j + i + |a|] == a;
    assert OccursAt(a, c, j + i);
  }

  /** Every string contains itself. */
  lemma SubstringReflexive(s: string)
    ensures IsSubstring(s, s)
  {
    assert s[0..|s|] == s;
    assert OccursAt(s, s, 0);
  }

  /** An occurrence survives lowering both strings. */
  lemma SubstringLower(a: string, b: string)
    requires IsSubstring(a, b)
    ensures IsSubstring(ToLower(a), ToLower(b))
  {
    var i :| 0 <= i <= |b| - |a| && OccursAt(a, b, i);
    ToLowerSlice(b, i, i + |a|);
    assert OccursAt(ToLower(a), ToLower(b), i);
  }

  /**
   * The search relation is case-insensitive in the query and narrows as the
   * query grows: whatever a query matches, every piece of it matches too.
   */
  lemma ContainsIgnoreCaseProperties(s: string, q: string, piece: string)
    ensures ContainsIgnoreCase(s, q) <==> ContainsIgnoreCase(s, ToLower(q))
    ensures ContainsIgnoreCase(s, s)
    ensures IsSubstring(piece, q) && ContainsIgnoreCase(s, q) ==> ContainsIgnoreCase(s, piece)
  {
    ToLowerIdempotent(q);
    SubstringReflexive(ToLower(s));
    if IsSubstring(piece, q) && ContainsIgnoreCase(s, q) {
      SubstringLower(piece, q);
      SubstringTransitive(ToLower(piece), ToLower(q), ToLower(s));
    }
  }
}
