/**
  Source-coverage bitmaps and word ranges as the cube-pruning search uses
  them: a bitmap has one flag per source word, a range is an inclusive
  span [start, end] of source positions.
 */
module Coverage {

  type Bitmap = seq<bool>

  /** An inclusive span of source positions. */
  datatype Range = Range(start: nat, end: nat)

  /** Number of source words a well-formed range spans. */
  function Length(r: Range): nat
  {
    if r.end < r.start then 0 else r.end - r.start + 1
  }

  /** The bitmap with no word covered. */
  function Initial(size: nat): (b: Bitmap)
    ensures |b| == size && forall i :: 0 <= i < size ==> !b[i]
  {
    seq(size, _ => false)
  }

  /** Number of covered words. */
  function NumCovered(b: Bitmap): (n: nat)
    ensures n <= |b|
  {
    if |b| == 0 then 0 else NumCovered(b[..|b| - 1]) + (if b[|b| - 1] then 1 else 0)
  }

  /** Every word is covered. */
  predicate Complete(b: Bitmap)
  {
    NumCovered(b) == |b|
  }

  /** Some position of the range is covered. */
  predicate Overlap(b: Bitmap, r: Range)
  {
    exists i :: r.start <= i <= r.end && i < |b| && b[i]
  }

  /** The bitmap with the positions of r covered as well. */
  function Union(b: Bitmap, r: Range): (u: Bitmap)
    ensures |u| == |b|
    ensures forall i :: 0 <= i < |b| ==> u[i] == (b[i] || r.start <= i <= r.end)
  {
    seq(|b|, i requires 0 <= i < |b| => b[i] || r.start <= i <= r.end)
  }

  /** The first uncovered position, or |b| when every word is covered. */
  function FirstGap(b: Bitmap): (g: nat)
    ensures g <= |b|
    ensures g < |b| ==> !b[g]
    ensures forall i :: 0 <= i < g ==> b[i]
  {
    if |b| == 0 then 0
    else if !b[0] then 0
    else 1 + FirstGap(b[1..])
  }

  /** Number of positions below n that lie in r. */
  function InRange(r: Range, n: nat): nat
  {
    if n == 0 then 0 else InRange(r, n - 1) + (if r.start <= n - 1 <= r.end then 1 else 0)
  }

  lemma {:induction false} InRangeAll(r: Range, n: nat)
    requires r.start <= r.end < n
    ensures InRange(r, n) == Length(r)
  {
    if n - 1 > r.end {
      InRangeAll(r, n - 1);
    } else {
      InRangePrefix(r, n - 1);
    }
  }

  lemma {:induction false} InRangePrefix(r: Range, n: nat)
    requires r.start <= r.end && n <= r.end + 1
    ensures InRange(r, n) == if n <= r.start then 0 else n - r.start
  {
    if n > 0 {
      InRangePrefix(r, n - 1);
    }
  }

  /** Covering words one range at a time adds exactly the range's words, on a prefix of the bitmap. */
  lemma {:induction false} NumCoveredUnionPrefix(b: Bitmap, r: Range, n: nat)
    requires n <= |b|
    requires !Overlap(b, r)
    ensures NumCovered(Union(b, r)[..n]) == NumCovered(b[..n]) + InRange(r, n)
  {
    if n > 0 {
      var u := Union(b, r);
      NumCoveredUnionPrefix(b, r, n - 1);
      assert u[..n][..n - 1] == u[..n - 1];
      assert b[..n][..n - 1] == b[..n - 1];
      if r.start <= n - 1 <= r.end {
        assert !b[n - 1];
      }
    }
  }

  /** Covering a range none of whose words is covered yet adds exactly its length to the count. */
  lemma NumCoveredUnion(b: Bitmap, r: Range)
    requires r.start <= r.end < |b|
    requires !Overlap(b, r)
    ensures NumCovered(Union(b, r)) == NumCovered(b) + Length(r)
  {
    NumCoveredUnionPrefix(b, r, |b|);
    InRangeAll(r, |b|);
    assert Union(b, r)[..|b|] == Union(b, r);
    assert b[..|b|] == b;
  }

  /** A bitmap whose count equals its length has every word covered, and conversely. */
  lemma {:induction false} CompleteIff(b: Bitmap)
    ensures Complete(b) <==> forall i :: 0 <= i < |b| ==> b[i]
  {
    if |b| > 0 {
      var p := b[..|b| - 1];
      CompleteIff(p);
      assert forall i :: 0 <= i < |p| ==> p[i] == b[i];
    }
  }
}
