/** refine_kmeans_with_roi: the k-means cluster ids are zeroed outside the
    region of interest, replaced by their rank among the distinct values that
    remain (np.unique's inverse index) plus one, and zeroed outside the region
    again. */
module Refine {
  import opened Grids

  /** A boolean mask: true inside the region of interest. */
  type Mask = seq<seq<bool>>

  /** `g[~roi] = 0` on a copy of g. */
  function ZeroOutside(g: Grid, roi: Mask): (r: Grid)
    requires SameShape(g, roi)
    ensures SameShape(r, g)
    ensures forall i, j :: InGrid(g, i, j) && !roi[i][j] ==> r[i][j] == 0
    ensures forall i, j :: InGrid(g, i, j) && roi[i][j] ==> r[i][j] == g[i][j]
  {
    seq(|g|, i requires 0 <= i < |g| =>
      seq(|g[i]|, j requires 0 <= j < |g[i]| => if roi[i][j] then g[i][j] else 0))
  }

  /** The index of x in the sorted distinct values s: how many are smaller. */
  function Rank(s: set<int>, x: int): nat {
    |set y | y in s && y < x|
  }

  /** Distinct values keep their order under Rank. */
  lemma RankMonotone(s: set<int>, x: int, y: int)
    requires x in s && x < y
    ensures Rank(s, x) < Rank(s, y)
  {
    var below := set z | z in s && z < x;
    var upto := set z | z in s && z < y;
    assert below + {x} <= upto;
    assert x !in below;
    SubsetCard(below + {x}, upto);
  }

  /** A rank never reaches the number of distinct values. */
  lemma RankBound(s: set<int>, x: int)
    requires x in s
    ensures Rank(s, x) < |s|
  {
    var below := set z | z in s && z < x;
    assert below + {x} <= s;
    SubsetCard(below + {x}, s);
  }

  /** The first k entries of a strictly increasing sequence are k values. */
  lemma {:induction false} PrefixCard(u: seq<int>, k: nat)
    requires StrictlyIncreasing(u) && k <= |u|
    ensures |set a | 0 <= a < k :: u[a]| == k
  {
    if k > 0 {
      var before := set a | 0 <= a < k - 1 :: u[a];
      PrefixCard(u, k - 1);
      assert (set a | 0 <= a < k :: u[a]) == before + {u[k - 1]};
      assert u[k - 1] !in before;
    }
  }

  /** Rank is np.unique's inverse index: in the sorted distinct values u of
      s, x sits at position Rank(s, x). */
  lemma RankIsIndex(s: set<int>, u: seq<int>, x: int)
    requires StrictlyIncreasing(u) && (forall y :: y in u <==> y in s) && x in s
    ensures Rank(s, x) < |u| && u[Rank(s, x)] == x
  {
    var k :| 0 <= k < |u| && u[k] == x;
    var smaller := set a | 0 <= a < k :: u[a];
    forall y | y in s && y < x
      ensures y in smaller
    {
      var b :| 0 <= b < |u| && u[b] == y;
      assert b < k;
    }
    assert (set y | y in s && y < x) == smaller;
    PrefixCard(u, k);
  }

  /** refine_kmeans_with_roi(kmeans_labels, roi_mask). */
  function RefineWithRoi(labels: Grid, roi: Mask): (r: Grid)
    requires SameShape(labels, roi)
    ensures SameShape(r, labels)
    ensures forall i, j :: InGrid(labels, i, j) && !roi[i][j] ==> r[i][j] == 0
    ensures forall i, j :: InGrid(labels, i, j) && roi[i][j] ==>
              r[i][j] == Rank(Values(ZeroOutside(labels, roi)), labels[i][j]) + 1
  {
    var masked := ZeroOutside(labels, roi);
    var u := Values(masked);
    var ranked := seq(|masked|, i requires 0 <= i < |masked| =>
      seq(|masked[i]|, j requires 0 <= j < |masked[i]| => Rank(u, masked[i][j]) + 1));
    ZeroOutside(ranked, roi)
  }

  /** Outside the region every pixel is 0; inside, labels are at least 1 and at
      most the number of distinct values left after masking, and they keep
      the order of the cluster ids: two pixels of the region compare as their
      ids do (so they share a label exactly when they share an id). */
  lemma RefineSpec(labels: Grid, roi: Mask)
    requires SameShape(labels, roi)
    ensures var r := RefineWithRoi(labels, roi);
      && (forall i, j :: InGrid(labels, i, j) && !roi[i][j] ==> r[i][j] == 0)
      && (forall i, j :: InGrid(labels, i, j) && roi[i][j] ==>
            1 <= r[i][j] <= |Values(ZeroOutside(labels, roi))|)
      && (forall i1, j1, i2, j2 :: InGrid(labels, i1, j1) && roi[i1][j1] && InGrid(labels, i2, j2) && roi[i2][j2] ==>
            (labels[i1][j1] < labels[i2][j2] <==> r[i1][j1] < r[i2][j2]))
  {
    var masked := ZeroOutside(labels, roi);
    var u := Values(masked);
    var r := RefineWithRoi(labels, roi);
    forall i, j | InGrid(labels, i, j) && roi[i][j]
      ensures 1 <= r[i][j] <= |u|
    {
      assert masked[i][j] in u;
      RankBound(u, masked[i][j]);
    }
    forall i1, j1, i2, j2 | InGrid(labels, i1, j1) && roi[i1][j1] && InGrid(labels, i2, j2) && roi[i2][j2]
      ensures labels[i1][j1] < labels[i2][j2] <==> r[i1][j1] < r[i2][j2]
    {
      var x, y := masked[i1][j1], masked[i2][j2];
      assert x in u && y in u;
      if x < y {
        RankMonotone(u, x, y);
      } else if y < x {
        RankMonotone(u, y, x);
      }
    }
  }

  /** When some pixel lies outside the region and no pixel inside it has
      cluster id 0, the background value 0 takes rank 0 and the labels inside
      the region start at 2, not 1. */
  lemma RefineSkipsOne(labels: Grid, roi: Mask, i0: int, j0: int)
    requires SameShape(labels, roi)
    requires InGrid(labels, i0, j0) && !roi[i0][j0]
    requires forall i, j :: InGrid(labels, i, j) && roi[i][j] ==> labels[i][j] > 0
    ensures forall i, j :: InGrid(labels, i, j) && roi[i][j] ==> RefineWithRoi(labels, roi)[i][j] >= 2
  {
    var masked := ZeroOutside(labels, roi);
    var u := Values(masked);
    assert masked[i0][j0] == 0;
    assert 0 in u;
    forall i, j | InGrid(labels, i, j) && roi[i][j]
      ensures RefineWithRoi(labels, roi)[i][j] >= 2
    {
      RankMonotone(u, 0, masked[i][j]);
    }
  }
}
