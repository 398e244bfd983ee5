/** remove_small_clusters: every nonzero label with fewer than `minSize`
    pixels in the whole image is set to 0, and the result is relabelled into
    connected regions. */
module Prune {
  import opened Grids
  import opened Labelling

  /** Label l is dropped: it is not the background and covers fewer than
      minSize pixels of seg. */
  predicate Small(seg: Grid, minSize: int, l: int) {
    l != 0 && Area(seg, l) < minSize
  }

  /** seg after the labels in `done` have been through the loop. */
  function DropSmall(seg: Grid, minSize: int, done: set<int>): (r: Grid)
    ensures SameShape(r, seg)
  {
    seq(|seg|, i requires 0 <= i < |seg| =>
      seq(|seg[i]|, j requires 0 <= j < |seg[i]| =>
        if seg[i][j] in done && Small(seg, minSize, seg[i][j]) then 0 else seg[i][j]))
  }

  /** seg with every small label cleared. */
  function Thresholded(seg: Grid, minSize: int): (r: Grid)
    ensures SameShape(r, seg)
  {
    DropSmall(seg, minSize, Values(seg))
  }

  /** The loop of remove_small_clusters over np.unique(seg). */
  method DropSmallLabels(seg: Grid, minSize: int) returns (t: Grid)
    ensures t == Thresholded(seg, minSize)
  {
    var labels := Unique(Values(seg));
    t := seg;
    for k := 0 to |labels|
      invariant SameShape(t, seg)
      invariant forall i, j :: InGrid(seg, i, j) ==>
                  t[i][j] == if seg[i][j] in labels[..k] && Small(seg, minSize, seg[i][j]) then 0 else seg[i][j]
    {
      var l := labels[k];
      if l == 0 {
        continue;
      }
      if Area(seg, l) < minSize {
        t := SetWhere(t, seg, l, 0);
      }
    }
    forall i, j | InGrid(seg, i, j)
      ensures t[i][j] == Thresholded(seg, minSize)[i][j]
    {
      assert seg[i][j] in Values(seg);
      assert seg[i][j] in labels;
      assert labels[..|labels|] == labels;
    }
    GridExt(t, Thresholded(seg, minSize));
  }

  /** remove_small_clusters(seg, min_size). */
  method RemoveSmallClusters(seg: Grid, minSize: int) returns (out: Grid, n: nat)
    ensures IsLabelling(Thresholded(seg, minSize), out, n)
  {
    var t := DropSmallLabels(seg, minSize);
    out, n := Label(t);
  }

  /** Thresholding only clears pixels: a pixel survives, unchanged, exactly
      when its label is the background or covers at least minSize pixels. */
  lemma ThresholdedClears(seg: Grid, minSize: int, i: int, j: int)
    requires InGrid(seg, i, j)
    ensures Thresholded(seg, minSize)[i][j] == seg[i][j] <==> !Small(seg, minSize, seg[i][j])
    ensures Thresholded(seg, minSize)[i][j] != seg[i][j] ==> Thresholded(seg, minSize)[i][j] == 0
  {
    assert seg[i][j] in Values(seg);
  }

  /** A label that is not small keeps all its pixels. */
  lemma KeptPixels(seg: Grid, minSize: int, v: int)
    requires v != 0 && !Small(seg, minSize, v)
    ensures PixelsOf(Thresholded(seg, minSize), v) == PixelsOf(seg, v)
  {
    var t := Thresholded(seg, minSize);
    forall p | p in PixelsOf(t, v)
      ensures p in PixelsOf(seg, v)
    {
      ThresholdedClears(seg, minSize, p.0, p.1);
    }
    forall p | p in PixelsOf(seg, v)
      ensures p in PixelsOf(t, v)
    {
      ThresholdedClears(seg, minSize, p.0, p.1);
    }
  }

  /** Every label left after thresholding covers at least minSize pixels. */
  lemma SurvivorsLarge(seg: Grid, minSize: int, v: int)
    requires v != 0 && v in Values(Thresholded(seg, minSize))
    ensures Area(Thresholded(seg, minSize), v) >= minSize
  {
    var t := Thresholded(seg, minSize);
    var i, j :| 0 <= i < |t| && 0 <= j < |t[i]| && t[i][j] == v;
    ThresholdedClears(seg, minSize, i, j);
    KeptPixels(seg, minSize, v);
  }

  /** Thresholding a second time changes nothing. */
  lemma ThresholdedIdempotent(seg: Grid, minSize: int)
    ensures Thresholded(Thresholded(seg, minSize), minSize) == Thresholded(seg, minSize)
  {
    var t := Thresholded(seg, minSize);
    forall i, j | InGrid(t, i, j)
      ensures Thresholded(t, minSize)[i][j] == t[i][j]
    {
      ThresholdedClears(t, minSize, i, j);
      if t[i][j] != 0 {
        assert t[i][j] in Values(t);
        SurvivorsLarge(seg, minSize, t[i][j]);
      }
    }
    GridExt(Thresholded(t, minSize), t);
  }
}
