/** calculate_cluster_modes: for every nonzero label of the segmentation, the
    quantized level that occurs most often under it; among equally frequent
    levels the smallest (np.unique sorts the levels and np.argmax returns the
    first maximum). */
module Modes {
  import opened Grids

  /** The quantized levels under label l. */
  function LevelsUnder(seg: Grid, q: Grid, l: int): set<int>
    requires SameShape(q, seg)
  {
    set i, j | 0 <= i < |seg| && 0 <= j < |seg[i]| && seg[i][j] == l :: q[i][j]
  }

  /** The pixels of label l at level v. */
  function Under(seg: Grid, q: Grid, l: int, v: int): set<Pixel>
    requires SameShape(q, seg)
  {
    set i, j | 0 <= i < |seg| && 0 <= j < |seg[i]| && seg[i][j] == l && q[i][j] == v :: (i, j)
  }

  /** How often level v occurs under label l. */
  function Count(seg: Grid, q: Grid, l: int, v: int): nat
    requires SameShape(q, seg)
  {
    |Under(seg, q, l, v)|
  }

  /** m is the mode of label l: it occurs, no level occurs more often, and
      every smaller level occurs strictly less often. */
  ghost predicate IsMode(seg: Grid, q: Grid, l: int, m: int)
    requires SameShape(q, seg)
  {
    && Count(seg, q, l, m) > 0
    && (forall v :: Count(seg, q, l, v) <= Count(seg, q, l, m))
    && (forall v :: v < m ==> Count(seg, q, l, v) < Count(seg, q, l, m))
  }

  /** A label has at most one mode. */
  lemma ModeUnique(seg: Grid, q: Grid, l: int, m1: int, m2: int)
    requires SameShape(q, seg)
    requires IsMode(seg, q, l, m1) && IsMode(seg, q, l, m2)
    ensures m1 == m2
  {
  }

  /** A level occurs under l exactly when it is among the levels under l. */
  lemma CountPositive(seg: Grid, q: Grid, l: int, v: int)
    requires SameShape(q, seg)
    ensures Count(seg, q, l, v) > 0 <==> v in LevelsUnder(seg, q, l)
  {
    if v in LevelsUnder(seg, q, l) {
      var i, j :| 0 <= i < |seg| && 0 <= j < |seg[i]| && seg[i][j] == l && q[i][j] == v;
      assert (i, j) in Under(seg, q, l, v);
    }
  }

  /** np.argmax: the first index of a largest entry. */
  method ArgMax(xs: seq<int>) returns (k: nat)
    requires |xs| > 0
    ensures k < |xs|
    ensures forall t :: 0 <= t < |xs| ==> xs[t] <= xs[k]
    ensures forall t :: 0 <= t < k ==> xs[t] < xs[k]
  {
    k := 0;
    for t := 1 to |xs|
      invariant k < t
      invariant forall u :: 0 <= u < t ==> xs[u] <= xs[k]
      invariant forall u :: 0 <= u < k ==> xs[u] < xs[k]
    {
      if xs[t] > xs[k] {
        k := t;
      }
    }
  }

  /** The mode of one label present in seg. */
  method ModeOf(seg: Grid, q: Grid, l: int) returns (m: int)
    requires SameShape(q, seg)
    requires l in Values(seg)
    ensures IsMode(seg, q, l, m)
  {
    var i0, j0 :| 0 <= i0 < |seg| && 0 <= j0 < |seg[i0]| && seg[i0][j0] == l;
    assert q[i0][j0] in LevelsUnder(seg, q, l);
    var levels := LevelsUnder(seg, q, l);
    var values := Unique(levels);
    var v0 := q[i0][j0];
    assert v0 in levels;
    assert v0 in values;
    var counts := seq(|values|, t requires 0 <= t < |values| => Count(seg, q, l, values[t]));
    var k := ArgMax(counts);
    m := values[k];
    CountPositive(seg, q, l, m);
    forall v
      ensures Count(seg, q, l, v) <= Count(seg, q, l, m)
      ensures v < m ==> Count(seg, q, l, v) < Count(seg, q, l, m)
    {
      CountPositive(seg, q, l, v);
      if v in LevelsUnder(seg, q, l) {
        var t :| 0 <= t < |values| && values[t] == v;
        assert counts[t] == Count(seg, q, l, v);
        if v < m {
          assert t < k;
        }
      }
    }
  }

  /** calculate_cluster_modes(seg, quantized): one entry per nonzero label. */
  method ClusterModes(seg: Grid, q: Grid) returns (modes: map<int, int>)
    requires SameShape(q, seg)
    ensures forall l :: l in modes <==> l in Values(seg) && l != 0
    ensures forall l :: l in modes ==> IsMode(seg, q, l, modes[l])
  {
    var labels := Unique(Values(seg));
    modes := map[];
    for k := 0 to |labels|
      invariant forall l :: l in modes <==> l in labels[..k] && l != 0
      invariant forall l :: l in modes ==> IsMode(seg, q, l, modes[l])
    {
      var l := labels[k];
      if l == 0 {
        continue;
      }
      var m := ModeOf(seg, q, l);
      modes := modes[l := m];
    }
    assert labels[..|labels|] == labels;
  }
}
