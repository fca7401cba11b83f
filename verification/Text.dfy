/** Searching in text. */
module Text {
  /** Index of the first `c`, or the length. */
  function IndexOf(s: string, c: char): (i: nat)
    ensures i <= |s| && (forall k | 0 <= k < i :: s[k] != c) && (i < |s| ==> s[i] == c)
  {
    if s == [] || s[0] == c then 0 else 1 + IndexOf(s[1..], c)
  }

  /** A piece without `c` in front of a `c` is found whole. */
  lemma IndexOfPiece(a: string, b: string, c: char)
    ensures IndexOf(a + [c] + b, c) == IndexOf(a, c)
  {
    var s, i := a + [c] + b, IndexOf(a, c);
    hide IndexOf;
    assert s[i] == c && forall k | 0 <= k < i :: s[k] == a[k];
  }
}
