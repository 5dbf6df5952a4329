/** Code-point strings, as a Python `str` holds them, and the two string tests
    the search query is built from: SQLite's default `LIKE '%q%'` and the
    "contains a code point above 127" test. */
module Text {

  /** A Unicode code point, as `ord` returns it. */
  type CodePoint = c: int | 0 <= c < 0x11_0000

  /** A string is a sequence of code points. */
  type Str = seq<CodePoint>

  /** ASCII lower-casing: SQLite's default LIKE folds case for ASCII letters only. */
  function Lower(c: CodePoint): CodePoint
  {
    if 65 <= c <= 90 then c + 32 else c
  }

  function LowerAll(s: Str): Str
  {
    seq(|s|, i requires 0 <= i < |s| => Lower(s[i]))
  }

  /** `q` occurs in `s` starting at position `i`. */
  predicate OccursAt(q: Str, s: Str, i: nat)
  {
    i + |q| <= |s| && s[i..i + |q|] == q
  }

  /** Substring test, scanning `s` from the left. */
  predicate Contains(s: Str, q: Str)
    ensures Contains(s, q) <==> exists i: nat :: OccursAt(q, s, i)
    decreases |s|
  {
    if |q| <= |s| && s[..|q|] == q then
      assert OccursAt(q, s, 0);
      true
    else if s == [] then
      false
    else
      ShiftOccurrence(q, s);
      Contains(s[1..], q)
  }

  /** An occurrence in `s[1..]` is an occurrence in `s` one position later, and back. */
  lemma ShiftOccurrence(q: Str, s: Str)
    requires s != [] && !OccursAt(q, s, 0)
    ensures (exists i: nat :: OccursAt(q, s, i)) <==> (exists i: nat :: OccursAt(q, s[1..], i))
  {
    forall i: nat | OccursAt(q, s[1..], i) ensures OccursAt(q, s, i + 1) {
      assert s[1..][i..i + |q|] == s[i + 1..i + 1 + |q|];
    }
    forall i: nat | OccursAt(q, s, i) ensures i >= 1 && OccursAt(q, s[1..], i - 1) {
      assert s[1..][i - 1..i - 1 + |q|] == s[i..i + |q|];
    }
  }

  /** `q` occurs in `s` at position `i` when ASCII letter case is ignored. */
  predicate FoldedAt(q: Str, s: Str, i: nat)
  {
    i + |q| <= |s| && forall k :: 0 <= k < |q| ==> Lower(s[i + k]) == Lower(q[k])
  }

  /** `s LIKE '%q%'` under SQLite's default collation: substring after ASCII case folding. */
  predicate Like(s: Str, q: Str)
    ensures Like(s, q) <==> exists i: nat :: FoldedAt(q, s, i)
  {
    FoldedOccurrence(q, s);
    Contains(LowerAll(s), LowerAll(q))
  }

  /** An occurrence of the folded pattern in the folded text is a case-blind
      occurrence of the pattern in the text, and back. */
  lemma FoldedOccurrence(q: Str, s: Str)
    ensures forall i: nat :: OccursAt(LowerAll(q), LowerAll(s), i) <==> FoldedAt(q, s, i)
  {
    forall i: nat ensures OccursAt(LowerAll(q), LowerAll(s), i) <==> FoldedAt(q, s, i) {
      if i + |q| <= |s| {
        var window := LowerAll(s)[i..i + |q|];
        if window == LowerAll(q) {
          forall k | 0 <= k < |q| ensures Lower(s[i + k]) == Lower(q[k]) {
            assert window[k] == LowerAll(s)[i + k];
          }
        }
        if FoldedAt(q, s, i) {
          assert window == LowerAll(q);
        }
      }
    }
  }

  /** `any(ord(c) > 127 for c in q)`. */
  predicate HasNonAscii(q: Str)
    ensures HasNonAscii(q) <==> exists i :: 0 <= i < |q| && q[i] > 127
  {
    if q == [] then false
    else q[0] > 127 || (assert forall i :: 1 <= i < |q| ==> q[1..][i - 1] == q[i]; HasNonAscii(q[1..]))
  }
}
