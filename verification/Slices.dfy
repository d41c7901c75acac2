/** Facts about slices of sequences that the verifier does not find by itself. */
module Slices {

  lemma SliceSlice<T>(s: seq<T>, a: int, b: int, c: int, d: int)
    requires 0 <= a <= b <= |s| && 0 <= c <= d <= b - a
    ensures s[a..b][c..d] == s[a + c..a + d]
  {
    var x, y := s[a..b][c..d], s[a + c..a + d];
    assert |x| == |y|;
    assert forall i | 0 <= i < |x| :: x[i] == s[a..b][c + i] == s[a + c + i] == y[i];
  }

  lemma SliceParts<T>(s: seq<T>, i: int, a: seq<T>, b: seq<T>)
    requires 0 <= i && i + |a| + |b| <= |s| && s[i..i + |a| + |b|] == a + b
    ensures s[i..i + |a|] == a && s[i + |a|..i + |a| + |b|] == b
  {
    SliceSlice(s, i, i + |a| + |b|, 0, |a|);
    SliceSlice(s, i, i + |a| + |b|, |a|, |a| + |b|);
  }

  lemma SliceJoin<T>(s: seq<T>, a: int, b: int, c: int)
    requires 0 <= a <= b <= c <= |s|
    ensures s[a..b] + s[b..c] == s[a..c]
  {
  }
}
