/** merge_clusters: regions that touch (through the four np.roll shifts, which
    wrap around the image border) and have the same quantized mode are joined
    in a graph whose nodes are the labels present; each label is replaced by
    the number of its connected component, components numbered 0, 1, ... in
    the order of their smallest label. */
module Merge {
  import opened Grids
  import opened Graphs

  datatype Option<T> = None | Some(value: T)

  /** cluster_modes.get(a). */
  function Get(modes: map<int, int>, a: int): (r: Option<int>)
    ensures r.Some? <==> a in modes
    ensures r.Some? ==> r.value == modes[a]
  {
    if a in modes then Some(modes[a]) else None
  }

  /** The shifts (dy, dx) of the source, in its order. */
  const Shifts: seq<(int, int)> := [(-1, 0), (1, 0), (0, -1), (0, 1)]

  /** The source's test for an edge between label a and the label b next to
      it: different, both foreground, and the same mode lookup. */
  predicate Joins(modes: map<int, int>, a: int, b: int) {
    a != b && a > 0 && b > 0 && Get(modes, a) == Get(modes, b)
  }

  /** The edge test does not depend on which label is shifted. */
  lemma JoinsSymmetric(modes: map<int, int>, a: int, b: int)
    ensures Joins(modes, a, b) <==> Joins(modes, b, a)
  {
  }

  /** The row and the column shift of shift number t. */
  function Dy(t: int): (d: int)
    requires 0 <= t < 4
    ensures -1 <= d <= 1
  {
    Shifts[t].0
  }

  function Dx(t: int): (d: int)
    requires 0 <= t < 4
    ensures -1 <= d <= 1
  {
    Shifts[t].1
  }

  /** np.roll(seg, Shifts[t]): entry (i, j) comes from the wrapped position
      (i - dy, j - dx). */
  function Shifted(seg: Grid, t: int): (r: Grid)
    requires IsGrid(seg) && 0 <= t < 4
    ensures SameShape(r, seg)
  {
    Roll(seg, Dy(t), Dx(t))
  }

  lemma ShiftedAt(seg: Grid, t: int, i: int, j: int)
    requires IsGrid(seg) && 0 <= t < 4 && 0 <= i < |seg| && 0 <= j < |seg[0]|
    ensures Shifted(seg, t)[i][j] == seg[Wrap(i - Dy(t), |seg|)][Wrap(j - Dx(t), |seg[0]|)]
  {
  }

  /** The edges one shifted copy sh of seg contributes: the pairs of labels
      at the same position of seg and sh that pass the edge test. */
  function ShiftEdges(seg: Grid, sh: Grid, modes: map<int, int>): set<(int, int)>
    requires SameShape(sh, seg)
  {
    set i, j | 0 <= i < |seg| && 0 <= j < |seg[i]| && Joins(modes, seg[i][j], sh[i][j]) :: (seg[i][j], sh[i][j])
  }

  /** The edges of the first t shifts. */
  function EdgesUpTo(seg: Grid, modes: map<int, int>, t: nat): set<(int, int)>
    requires IsGrid(seg) && t <= 4
  {
    if t == 0 then {} else EdgesUpTo(seg, modes, t - 1) + ShiftEdges(seg, Shifted(seg, t - 1), modes)
  }

  /** All edges the loops of merge_clusters add. */
  function EdgeSet(seg: Grid, modes: map<int, int>): set<(int, int)>
    requires IsGrid(seg)
  {
    EdgesUpTo(seg, modes, 4)
  }

  /** The shift and the position an edge was found at. */
  lemma EdgeWitness(seg: Grid, modes: map<int, int>, a: int, b: int) returns (t: int, i: int, j: int)
    requires IsGrid(seg) && (a, b) in EdgeSet(seg, modes)
    ensures 0 <= t < 4 && 0 <= i < |seg| && 0 <= j < |seg[0]| && |seg[i]| == |seg[0]|
    ensures Joins(modes, a, b) && a == seg[i][j] && b == Shifted(seg, t)[i][j]
  {
    EdgesUpToHas(seg, modes, 4, a, b);
    t :| 0 <= t < 4 && (a, b) in ShiftEdges(seg, Shifted(seg, t), modes);
    i, j :| 0 <= i < |seg| && 0 <= j < |seg[i]| && Joins(modes, seg[i][j], Shifted(seg, t)[i][j])
      && (a, b) == (seg[i][j], Shifted(seg, t)[i][j]);
  }

  /** Every edge joins two labels that occur in seg. */
  lemma EdgesAreLabels(seg: Grid, modes: map<int, int>, a: int, b: int)
    requires IsGrid(seg) && (a, b) in EdgeSet(seg, modes)
    ensures a in Values(seg) && b in Values(seg) && Joins(modes, a, b)
  {
    var t, i, j := EdgeWitness(seg, modes, a, b);
    ShiftedAt(seg, t, i, j);
    var i2, j2 := Wrap(i - Dy(t), |seg|), Wrap(j - Dx(t), |seg[0]|);
    assert b == seg[i2][j2];
  }

  /** Two positions of an h x w grid are neighbours on the torus: one row or
      one column apart, counting across the border. */
  predicate TorusNeighbours(h: int, w: int, p: Pixel, q: Pixel)
    requires 0 <= p.0 < h && 0 <= p.1 < w && 0 <= q.0 < h && 0 <= q.1 < w
  {
    || (p.1 == q.1 && (q.0 == Wrap(p.0 + 1, h) || p.0 == Wrap(q.0 + 1, h)))
    || (p.0 == q.0 && (q.1 == Wrap(p.1 + 1, w) || p.1 == Wrap(q.1 + 1, w)))
  }

  /** Labels a and b meet: they sit on torus neighbours and pass the edge test. */
  ghost predicate Meet(seg: Grid, modes: map<int, int>, a: int, b: int)
    requires IsGrid(seg)
  {
    && Joins(modes, a, b)
    && exists p: Pixel, q: Pixel :: InGrid(seg, p.0, p.1) && InGrid(seg, q.0, q.1)
         && |seg[p.0]| == |seg[q.0]| == |seg[0]|
         && TorusNeighbours(|seg|, |seg[0]|, p, q) && At(seg, p) == a && At(seg, q) == b
  }

  /** Labels a and b at one position of seg and of its shifted copy number
      t sit on torus neighbours. */
  lemma ShiftIsNeighbour(seg: Grid, t: int, i: int, j: int)
    requires IsGrid(seg) && 0 <= t < 4 && 0 <= i < |seg| && 0 <= j < |seg[0]|
    ensures var q: Pixel := (Wrap(i - Dy(t), |seg|), Wrap(j - Dx(t), |seg[0]|));
      && InGrid(seg, q.0, q.1) && TorusNeighbours(|seg|, |seg[0]|, (i, j), q) && Shifted(seg, t)[i][j] == At(seg, q)
  {
    ShiftedAt(seg, t, i, j);
  }

  /** Two torus neighbours appear at one position of seg and of one of its
      shifted copies. */
  lemma NeighbourIsShift(seg: Grid, p: Pixel, q: Pixel) returns (t: int)
    requires IsGrid(seg) && InGrid(seg, p.0, p.1) && InGrid(seg, q.0, q.1)
    requires |seg[p.0]| == |seg[q.0]| == |seg[0]|
    requires TorusNeighbours(|seg|, |seg[0]|, p, q)
    ensures 0 <= t < 4 && Shifted(seg, t)[p.0][p.1] == At(seg, q)
  {
    var h, w := |seg|, |seg[0]|;
    t := if p.1 == q.1 && q.0 == Wrap(p.0 + 1, h) then 0
         else if p.1 == q.1 && p.0 == Wrap(q.0 + 1, h) then 1
         else if p.0 == q.0 && q.1 == Wrap(p.1 + 1, w) then 2
         else 3;
    ShiftedAt(seg, t, p.0, p.1);
  }

  /** Every edge the shift loops find joins labels that meet. */
  lemma EdgeIsMeet(seg: Grid, modes: map<int, int>, a: int, b: int)
    requires IsGrid(seg) && (a, b) in EdgeSet(seg, modes)
    ensures Meet(seg, modes, a, b)
  {
    var t, i, j := EdgeWitness(seg, modes, a, b);
    ShiftIsNeighbour(seg, t, i, j);
    var p: Pixel, q: Pixel := (i, j), (Wrap(i - Dy(t), |seg|), Wrap(j - Dx(t), |seg[0]|));
    assert InGrid(seg, p.0, p.1) && InGrid(seg, q.0, q.1) && |seg[p.0]| == |seg[q.0]| == |seg[0]|
      && TorusNeighbours(|seg|, |seg[0]|, p, q) && At(seg, p) == a && At(seg, q) == b;
  }

  /** Every pair of labels that meet is an edge the shift loops find. */
  lemma MeetIsEdge(seg: Grid, modes: map<int, int>, a: int, b: int)
    requires IsGrid(seg) && Meet(seg, modes, a, b)
    ensures (a, b) in EdgeSet(seg, modes)
  {
    var p: Pixel, q: Pixel :| InGrid(seg, p.0, p.1) && InGrid(seg, q.0, q.1)
       && |seg[p.0]| == |seg[q.0]| == |seg[0]|
       && TorusNeighbours(|seg|, |seg[0]|, p, q) && At(seg, p) == a && At(seg, q) == b;
    var t := NeighbourIsShift(seg, p, q);
    assert (a, b) in ShiftEdges(seg, Shifted(seg, t), modes);
    EdgesUpToHas(seg, modes, 4, a, b);
  }

  /** An edge of the first n shifts comes from one of them. */
  lemma {:induction false} EdgesUpToHas(seg: Grid, modes: map<int, int>, n: nat, a: int, b: int)
    requires IsGrid(seg) && n <= 4
    ensures (a, b) in EdgesUpTo(seg, modes, n) <==> exists u :: 0 <= u < n && (a, b) in ShiftEdges(seg, Shifted(seg, u), modes)
  {
    if n > 0 {
      EdgesUpToHas(seg, modes, n - 1, a, b);
    }
  }

  /** One pass of the pixel loop for one shifted copy sh: every position whose
      two labels pass the edge test adds that pair. */
  method ScanShift(seg: Grid, sh: Grid, modes: map<int, int>, E0: set<(int, int)>) returns (E: set<(int, int)>)
    requires SameShape(sh, seg)
    ensures E == E0 + ShiftEdges(seg, sh, modes)
  {
    E := E0;
    for i := 0 to |seg|
      invariant E0 <= E <= E0 + ShiftEdges(seg, sh, modes)
      invariant forall a, b :: 0 <= a < i && 0 <= b < |seg[a]| && Joins(modes, seg[a][b], sh[a][b])
                  ==> (seg[a][b], sh[a][b]) in E
    {
      for j := 0 to |seg[i]|
        invariant E0 <= E <= E0 + ShiftEdges(seg, sh, modes)
        invariant forall a, b :: 0 <= a < i && 0 <= b < |seg[a]| && Joins(modes, seg[a][b], sh[a][b])
                    ==> (seg[a][b], sh[a][b]) in E
        invariant forall b :: 0 <= b < j && Joins(modes, seg[i][b], sh[i][b]) ==> (seg[i][b], sh[i][b]) in E
      {
        var a, b := seg[i][j], sh[i][j];
        if a != b && a > 0 && b > 0 {
          if Get(modes, a) == Get(modes, b) {
            E := E + {(a, b)};
          }
        }
      }
    }
  }

  /** The shift loops of merge_clusters. */
  method AdjacencyEdges(seg: Grid, modes: map<int, int>) returns (E: set<(int, int)>)
    requires IsGrid(seg)
    ensures E == EdgeSet(seg, modes)
  {
    E := {};
    for t := 0 to |Shifts|
      invariant E == EdgesUpTo(seg, modes, t)
    {
      var (dy, dx) := Shifts[t];
      var shifted := Roll(seg, dy, dx);
      assert shifted == Shifted(seg, t);
      E := ScanShift(seg, shifted, modes, E);
    }
  }

  /** networkx's undirected graph on the labels, with the edges found. */
  function MergeAdj(E: set<(int, int)>): (int, int) -> bool {
    (a: int, b: int) => (a, b) in E || (b, a) in E
  }

  lemma MergeAdjSymmetric(E: set<(int, int)>)
    ensures Symmetric(MergeAdj(E))
  {
  }

  /** Labels a and b end up in one merged region. */
  ghost predicate Merged(seg: Grid, modes: map<int, int>, a: int, b: int)
    requires IsGrid(seg)
  {
    Reach(MergeAdj(EdgeSet(seg, modes)), a, b)
  }

  /** out is the merge of seg: two pixels get one value exactly when their
      labels are joined through the merge graph; values are 0, 1, ... with
      none skipped; and a smaller value's region holds a smaller label than
      any pixel with a larger value (components numbered by smallest label). */
  ghost predicate IsMerge(seg: Grid, modes: map<int, int>, out: Grid)
    requires IsGrid(seg)
  {
    && SameShape(out, seg)
    && (forall p: Pixel, q: Pixel :: InGrid(seg, p.0, p.1) && InGrid(seg, q.0, q.1) ==>
          (At(out, p) == At(out, q) <==> Merged(seg, modes, At(seg, p), At(seg, q))))
    && (forall p: Pixel :: InGrid(seg, p.0, p.1) ==> 0 <= At(out, p))
    && (forall p: Pixel, k :: InGrid(seg, p.0, p.1) && 0 <= k < At(out, p) ==> k in Values(out))
    && (forall p: Pixel, q: Pixel :: InGrid(seg, p.0, p.1) && InGrid(seg, q.0, q.1) && At(out, p) < At(out, q) ==>
          exists r: Pixel :: InGrid(seg, r.0, r.1) && At(seg, r) < At(seg, q) && At(out, r) == At(out, p))
  }

  /** The facts the component search over `labels` with the edges E gives
      about the label mapping. */
  ghost predicate IsMapping(labels: seq<int>, E: set<(int, int)>, mapping: map<int, nat>, count: nat) {
    && (forall x :: x in mapping <==> x in labels)
    && (forall k :: 0 <= k < |labels| ==> labels[k] in mapping)
    && (forall x :: x in mapping ==> mapping[x] < count)
    && (forall c :: 0 <= c < count ==> c in mapping.Values)
    && (forall x, y :: x in mapping && y in mapping ==> (mapping[x] == mapping[y] <==> Reach(MergeAdj(E), x, y)))
    && (forall i, j :: 0 <= i < |labels| && 0 <= j < |labels| && mapping[labels[i]] < mapping[labels[j]] ==>
          exists k :: 0 <= k < j && mapping[labels[k]] == mapping[labels[i]])
  }

  /** Some pixel holds a label of seg. */
  lemma MappedNoGaps(seg: Grid, mapping: map<int, nat>, count: nat, out: Grid)
    requires forall x :: x in mapping ==> x in Values(seg) && mapping[x] < count
    requires forall c :: 0 <= c < count ==> c in mapping.Values
    requires SameShape(out, seg)
    requires forall i, j :: InGrid(seg, i, j) ==> seg[i][j] in mapping && out[i][j] == mapping[seg[i][j]]
    ensures forall p: Pixel, k :: InGrid(seg, p.0, p.1) && 0 <= k < At(out, p) ==> k in Values(out)
  {
    forall p: Pixel, k | InGrid(seg, p.0, p.1) && 0 <= k < At(out, p)
      ensures k in Values(out)
    {
      assert At(seg, p) in mapping && mapping[At(seg, p)] < count;
      assert k in mapping.Values;
      var y := KeyOf(mapping, k);
      var r := PixelWith(seg, y);
      assert At(out, r) == k;
    }
  }

  lemma MappedOrder(seg: Grid, labels: seq<int>, mapping: map<int, nat>, out: Grid)
    requires StrictlyIncreasing(labels) && forall x :: x in labels <==> x in Values(seg)
    requires forall k :: 0 <= k < |labels| ==> labels[k] in mapping
    requires forall i, j :: 0 <= i < |labels| && 0 <= j < |labels| && mapping[labels[i]] < mapping[labels[j]] ==>
               exists k :: 0 <= k < j && mapping[labels[k]] == mapping[labels[i]]
    requires SameShape(out, seg)
    requires forall i, j :: InGrid(seg, i, j) ==> seg[i][j] in mapping && out[i][j] == mapping[seg[i][j]]
    ensures forall p: Pixel, q: Pixel :: InGrid(seg, p.0, p.1) && InGrid(seg, q.0, q.1) && At(out, p) < At(out, q) ==>
              exists r: Pixel :: InGrid(seg, r.0, r.1) && At(seg, r) < At(seg, q) && At(out, r) == At(out, p)
  {
    forall p: Pixel, q: Pixel | InGrid(seg, p.0, p.1) && InGrid(seg, q.0, q.1) && At(out, p) < At(out, q)
      ensures exists r: Pixel :: InGrid(seg, r.0, r.1) && At(seg, r) < At(seg, q) && At(out, r) == At(out, p)
    {
      assert At(seg, p) in labels && At(seg, q) in labels;
      var i :| 0 <= i < |labels| && labels[i] == At(seg, p);
      var j :| 0 <= j < |labels| && labels[j] == At(seg, q);
      var k :| 0 <= k < j && mapping[labels[k]] == mapping[labels[i]];
      assert labels[k] < labels[j];
      var r := PixelWith(seg, labels[k]);
      assert InGrid(seg, r.0, r.1) && At(seg, r) < At(seg, q) && At(out, r) == At(out, p);
    }
  }

  lemma MappedJoins(seg: Grid, modes: map<int, int>, mapping: map<int, nat>, out: Grid)
    requires IsGrid(seg)
    requires forall x, y :: x in mapping && y in mapping ==>
               (mapping[x] == mapping[y] <==> Reach(MergeAdj(EdgeSet(seg, modes)), x, y))
    requires SameShape(out, seg)
    requires forall i, j :: InGrid(seg, i, j) ==> seg[i][j] in mapping && out[i][j] == mapping[seg[i][j]]
    ensures forall p: Pixel, q: Pixel :: InGrid(seg, p.0, p.1) && InGrid(seg, q.0, q.1) ==>
              (At(out, p) == At(out, q) <==> Merged(seg, modes, At(seg, p), At(seg, q)))
  {
    forall p: Pixel, q: Pixel | InGrid(seg, p.0, p.1) && InGrid(seg, q.0, q.1)
      ensures At(out, p) == At(out, q) <==> Merged(seg, modes, At(seg, p), At(seg, q))
    {
      assert At(seg, p) in mapping && At(seg, q) in mapping;
    }
  }

  /** Relabelling every pixel through the mapping gives the merge. */
  lemma MappedIsMerge(seg: Grid, modes: map<int, int>, labels: seq<int>, mapping: map<int, nat>, count: nat, out: Grid)
    requires IsGrid(seg) && IsMapping(labels, EdgeSet(seg, modes), mapping, count)
    requires StrictlyIncreasing(labels) && forall x :: x in labels <==> x in Values(seg)
    requires SameShape(out, seg)
    requires forall i, j :: InGrid(seg, i, j) ==> seg[i][j] in mapping && out[i][j] == mapping[seg[i][j]]
    ensures IsMerge(seg, modes, out)
  {
    forall x | x in mapping
      ensures x in Values(seg)
    {
      assert x in labels;
    }
    MappedNoGaps(seg, mapping, count, out);
    MappedOrder(seg, labels, mapping, out);
    MappedJoins(seg, modes, mapping, out);
    MappedNonNegative(seg, mapping, out);
  }

  lemma MappedNonNegative(seg: Grid, mapping: map<int, nat>, out: Grid)
    requires SameShape(out, seg)
    requires forall i, j :: InGrid(seg, i, j) ==> seg[i][j] in mapping && out[i][j] == mapping[seg[i][j]]
    ensures forall p: Pixel :: InGrid(seg, p.0, p.1) ==> 0 <= At(out, p)
  {
  }

  /** The merge graph's edges join labels of seg. */
  lemma MergeAdjOnLabels(seg: Grid, modes: map<int, int>, labels: seq<int>, E: set<(int, int)>)
    requires IsGrid(seg) && E == EdgeSet(seg, modes)
    requires forall x :: x in labels <==> x in Values(seg)
    ensures forall a, b :: MergeAdj(E)(a, b) ==> a in labels && b in labels
  {
    forall a, b | MergeAdj(E)(a, b)
      ensures a in labels && b in labels
    {
      if (a, b) in E {
        EdgesAreLabels(seg, modes, a, b);
      } else {
        EdgesAreLabels(seg, modes, b, a);
      }
    }
  }

  /** The loop over label_mapping.items(): every pixel of each old label gets
      its new label, reading the old labels from seg. */
  method ApplyMapping(seg: Grid, labels: seq<int>, mapping: map<int, nat>) returns (merged: Grid)
    requires forall x :: x in labels <==> x in Values(seg)
    requires forall x :: x in labels ==> x in mapping
    ensures SameShape(merged, seg)
    ensures forall i, j :: InGrid(seg, i, j) ==> seg[i][j] in mapping && merged[i][j] == mapping[seg[i][j]]
  {
    forall i, j | InGrid(seg, i, j)
      ensures seg[i][j] in mapping
    {
      var v := seg[i][j];
      assert v in Values(seg);
      assert v in labels;
    }
    merged := seg;
    for t := 0 to |labels|
      invariant SameShape(merged, seg)
      invariant forall i, j :: InGrid(seg, i, j) ==> seg[i][j] in mapping
      invariant forall i, j :: InGrid(seg, i, j) ==>
                  merged[i][j] == if seg[i][j] in labels[..t] then mapping[seg[i][j]] else seg[i][j]
    {
      merged := SetWhere(merged, seg, labels[t], mapping[labels[t]]);
    }
    forall i, j | InGrid(seg, i, j)
      ensures seg[i][j] in mapping && merged[i][j] == mapping[seg[i][j]]
    {
      var v := seg[i][j];
      assert v in Values(seg);
      assert labels[..|labels|] == labels;
    }
  }

  /** The loop over nx.connected_components(G): the label mapping, from the
      component search over the labels in np.unique order. */
  method LabelMapping(seg: Grid, modes: map<int, int>, labels: seq<int>, E: set<(int, int)>)
    returns (mapping: map<int, nat>, count: nat)
    requires IsGrid(seg) && E == EdgeSet(seg, modes)
    requires StrictlyIncreasing(labels)
    requires forall x :: x in labels <==> x in Values(seg)
    ensures IsMapping(labels, E, mapping, count)
  {
    MergeAdjSymmetric(E);
    MergeAdjOnLabels(seg, modes, labels, E);
    var adj := MergeAdj(E);
    assert forall a, b :: adj(a, b) ==> a in labels && b in labels;
    mapping, count := Components(labels, adj);
  }

  /** merge_clusters(seg, cluster_modes). */
  method MergeClusters(seg: Grid, modes: map<int, int>) returns (merged: Grid)
    requires IsGrid(seg)
    ensures IsMerge(seg, modes, merged)
  {
    var labels := Unique(Values(seg));
    var E := AdjacencyEdges(seg, modes);
    var mapping, count := LabelMapping(seg, modes, labels, E);
    merged := ApplyMapping(seg, labels, mapping);
    MappedIsMerge(seg, modes, labels, mapping, count, merged);
  }

  /** Label 0 gets no edge in the merge graph. */
  lemma ZeroIsolated(seg: Grid, modes: map<int, int>)
    requires IsGrid(seg)
    ensures forall y :: !MergeAdj(EdgeSet(seg, modes))(0, y)
  {
    forall y
      ensures !MergeAdj(EdgeSet(seg, modes))(0, y)
    {
      if (0, y) in EdgeSet(seg, modes) {
        EdgesAreLabels(seg, modes, 0, y);
      }
      if (y, 0) in EdgeSet(seg, modes) {
        EdgesAreLabels(seg, modes, y, 0);
      }
    }
  }

  /** A background pixel of seg lands in merged component 0: a larger value
      would need a pixel of value 0 holding a label below 0. */
  lemma BackgroundMapsToZero(seg: Grid, modes: map<int, int>, out: Grid, z: Pixel)
    requires IsGrid(seg) && IsMerge(seg, modes, out)
    requires forall p: Pixel :: InGrid(seg, p.0, p.1) ==> At(seg, p) >= 0
    requires InGrid(seg, z.0, z.1) && At(seg, z) == 0
    ensures At(out, z) == 0
  {
    if At(out, z) != 0 {
      assert 0 in Values(out);
      var r := PixelWith(out, 0);
      assert false;
    }
  }

  /** With non-negative labels and some background pixel, the merge keeps the
      background exactly: a pixel is 0 after merging iff it was 0 before. */
  lemma MergeKeepsBackground(seg: Grid, modes: map<int, int>, out: Grid, z: Pixel)
    requires IsGrid(seg) && IsMerge(seg, modes, out)
    requires forall p: Pixel :: InGrid(seg, p.0, p.1) ==> At(seg, p) >= 0
    requires InGrid(seg, z.0, z.1) && At(seg, z) == 0
    ensures forall p: Pixel :: InGrid(seg, p.0, p.1) ==> (At(out, p) == 0 <==> At(seg, p) == 0)
  {
    BackgroundMapsToZero(seg, modes, out, z);
    ZeroComponent(seg, modes, out, z);
  }

  /** When the background pixel z is merged into 0, merged component 0 is
      exactly the background. */
  lemma ZeroComponent(seg: Grid, modes: map<int, int>, out: Grid, z: Pixel)
    requires IsGrid(seg) && SameShape(out, seg)
    requires forall p: Pixel, q: Pixel :: InGrid(seg, p.0, p.1) && InGrid(seg, q.0, q.1) ==>
               (At(out, p) == At(out, q) <==> Merged(seg, modes, At(seg, p), At(seg, q)))
    requires InGrid(seg, z.0, z.1) && At(seg, z) == 0 && At(out, z) == 0
    ensures forall p: Pixel :: InGrid(seg, p.0, p.1) ==> (At(out, p) == 0 <==> At(seg, p) == 0)
  {
    forall p: Pixel | InGrid(seg, p.0, p.1)
      ensures At(out, p) == 0 <==> At(seg, p) == 0
    {
      SameComponentAsZero(seg, modes, out, z, p);
    }
  }

  lemma SameComponentAsZero(seg: Grid, modes: map<int, int>, out: Grid, z: Pixel, p: Pixel)
    requires IsGrid(seg) && SameShape(out, seg)
    requires forall p: Pixel, q: Pixel :: InGrid(seg, p.0, p.1) && InGrid(seg, q.0, q.1) ==>
               (At(out, p) == At(out, q) <==> Merged(seg, modes, At(seg, p), At(seg, q)))
    requires InGrid(seg, z.0, z.1) && At(seg, z) == 0 && At(out, z) == 0
    requires InGrid(seg, p.0, p.1)
    ensures At(out, p) == 0 <==> At(seg, p) == 0
  {
    var adj := MergeAdj(EdgeSet(seg, modes));
    ZeroIsolated(seg, modes);
    if At(out, p) == 0 {
      assert Merged(seg, modes, At(seg, z), At(seg, p));
      ReachFromIsolated(adj, 0, At(seg, p));
    }
    if At(seg, p) == 0 {
      ReachRefl(adj, 0);
      assert Merged(seg, modes, At(seg, z), At(seg, p));
    }
  }

  /** Without any background pixel the merge still numbers the first
      component 0, so some foreground region becomes background. */
  lemma MergeZeroWithoutBackground(seg: Grid, modes: map<int, int>, out: Grid)
    requires IsGrid(seg) && IsMerge(seg, modes, out)
    requires forall p: Pixel :: InGrid(seg, p.0, p.1) ==> At(seg, p) != 0
    ensures exists p: Pixel :: InGrid(seg, p.0, p.1) && At(seg, p) != 0 && At(out, p) == 0
  {
    var p: Pixel := (0, 0);
    assert InGrid(seg, p.0, p.1);
    if At(out, p) != 0 {
      assert 0 in Values(out);
      var r := PixelWith(out, 0);
      assert InGrid(seg, r.0, r.1) && At(out, r) == 0;
    }
  }
}
