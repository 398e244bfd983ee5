/** skimage's `label` on an integer image with background 0: the connected
    regions of equal nonzero value, under full (8-neighbour) connectivity,
    numbered 1, 2, ... in raster order of their first pixel; background stays 0. */
module Labelling {
  import opened Grids
  import opened Graphs

  /** p and q are distinct 8-neighbours holding the same nonzero value. */
  predicate Touch(g: Grid, p: Pixel, q: Pixel) {
    && Fg(g, p) && Fg(g, q) && p != q
    && -1 <= p.0 - q.0 <= 1 && -1 <= p.1 - q.1 <= 1
    && g[p.0][p.1] == g[q.0][q.1]
  }

  function Adj(g: Grid): (Pixel, Pixel) -> bool {
    (p: Pixel, q: Pixel) => Touch(g, p, q)
  }

  /** p and q lie in one connected region of g. */
  ghost predicate Connected(g: Grid, p: Pixel, q: Pixel) {
    Reach(Adj(g), p, q)
  }

  /** out is the labelling of g: same shape, 0 exactly on the background,
      labels 1..n all used, two foreground pixels share a label exactly when
      they are connected, and a smaller label's region starts earlier in
      raster order. */
  ghost predicate IsLabelling(g: Grid, out: Grid, n: nat) {
    && SameShape(out, g)
    && (forall p: Pixel :: InGrid(g, p.0, p.1) ==> (At(out, p) == 0 <==> At(g, p) == 0))
    && (forall p: Pixel :: InGrid(g, p.0, p.1) ==> 0 <= At(out, p) <= n)
    && (forall k :: 1 <= k <= n ==> k in Values(out))
    && (forall p, q :: Fg(g, p) && Fg(g, q) ==> (At(out, p) == At(out, q) <==> Connected(g, p, q)))
    && (forall p, q :: Fg(g, p) && Fg(g, q) && At(out, p) < At(out, q) ==>
          exists r :: Fg(g, r) && RasterLess(r, q) && At(out, r) == At(out, p))
  }

  lemma AdjSymmetric(g: Grid)
    ensures Symmetric(Adj(g))
  {
  }

  /** The foreground pixels of g in raster order. */
  method Foreground(g: Grid) returns (ps: seq<Pixel>)
    ensures forall p :: p in ps <==> Fg(g, p)
    ensures forall a, b :: 0 <= a < b < |ps| ==> RasterLess(ps[a], ps[b])
  {
    ps := [];
    for i := 0 to |g|
      invariant forall p :: p in ps <==> Fg(g, p) && p.0 < i
      invariant forall a, b :: 0 <= a < b < |ps| ==> RasterLess(ps[a], ps[b])
      invariant forall a :: 0 <= a < |ps| ==> ps[a].0 < i
    {
      for j := 0 to |g[i]|
        invariant forall p :: p in ps <==> Fg(g, p) && RasterLess(p, (i, j))
        invariant forall a, b :: 0 <= a < b < |ps| ==> RasterLess(ps[a], ps[b])
        invariant forall a :: 0 <= a < |ps| ==> RasterLess(ps[a], (i, j))
      {
        if g[i][j] != 0 {
          ps := ps + [(i, j)];
        }
      }
    }
  }

  /** Writes component numbers, shifted to start at 1, over the foreground. */
  function Relabel(g: Grid, comp: map<Pixel, nat>): (r: Grid)
    requires forall p :: Fg(g, p) ==> p in comp
    ensures SameShape(r, g)
    ensures forall p: Pixel :: InGrid(g, p.0, p.1) ==> At(r, p) == if Fg(g, p) then comp[p] + 1 else 0
  {
    seq(|g|, i requires 0 <= i < |g| =>
      seq(|g[i]|, j requires 0 <= j < |g[i]| => if Fg(g, (i, j)) then comp[(i, j)] + 1 else 0))
  }

  lemma RelabelRange(g: Grid, comp: map<Pixel, nat>, count: nat)
    requires forall p :: Fg(g, p) ==> p in comp
    requires forall x :: x in comp ==> comp[x] < count
    ensures forall p: Pixel :: InGrid(g, p.0, p.1) ==>
              (At(Relabel(g, comp), p) == 0 <==> At(g, p) == 0) && 0 <= At(Relabel(g, comp), p) <= count
  {
  }

  lemma RelabelUsesAll(g: Grid, comp: map<Pixel, nat>, count: nat)
    requires forall p :: Fg(g, p) <==> p in comp
    requires forall c :: 0 <= c < count ==> c in comp.Values
    ensures forall k :: 1 <= k <= count ==> k in Values(Relabel(g, comp))
  {
    var out := Relabel(g, comp);
    forall k | 1 <= k <= count
      ensures k in Values(out)
    {
      assert k - 1 in comp.Values;
      var x :| x in comp && comp[x] == k - 1;
      assert At(out, x) == k;
    }
  }

  lemma RelabelConnected(g: Grid, comp: map<Pixel, nat>)
    requires forall p :: Fg(g, p) ==> p in comp
    requires forall x, y :: x in comp && y in comp ==> (comp[x] == comp[y] <==> Reach(Adj(g), x, y))
    ensures forall p, q :: Fg(g, p) && Fg(g, q) ==>
              (At(Relabel(g, comp), p) == At(Relabel(g, comp), q) <==> Connected(g, p, q))
  {
    forall p, q | Fg(g, p) && Fg(g, q)
      ensures At(Relabel(g, comp), p) == At(Relabel(g, comp), q) <==> Connected(g, p, q)
    {
      assert p in comp && q in comp;
    }
  }

  lemma RelabelOrder(g: Grid, ps: seq<Pixel>, comp: map<Pixel, nat>)
    requires forall p :: p in ps <==> Fg(g, p)
    requires forall a, b :: 0 <= a < b < |ps| ==> RasterLess(ps[a], ps[b])
    requires forall p :: Fg(g, p) ==> p in comp
    requires forall k :: 0 <= k < |ps| ==> ps[k] in comp
    requires forall i, j :: 0 <= i < |ps| && 0 <= j < |ps| && comp[ps[i]] < comp[ps[j]] ==>
               exists k :: 0 <= k < j && comp[ps[k]] == comp[ps[i]]
    ensures forall p, q :: Fg(g, p) && Fg(g, q) && At(Relabel(g, comp), p) < At(Relabel(g, comp), q) ==>
              exists r :: Fg(g, r) && RasterLess(r, q) && At(Relabel(g, comp), r) == At(Relabel(g, comp), p)
  {
    var out := Relabel(g, comp);
    forall p, q | Fg(g, p) && Fg(g, q) && At(out, p) < At(out, q)
      ensures exists r :: Fg(g, r) && RasterLess(r, q) && At(out, r) == At(out, p)
    {
      var i :| 0 <= i < |ps| && ps[i] == p;
      var j :| 0 <= j < |ps| && ps[j] == q;
      assert comp[ps[i]] < comp[ps[j]];
      var k :| 0 <= k < j && comp[ps[k]] == comp[ps[i]];
      var r := ps[k];
      assert r in ps;
      assert Fg(g, r) && RasterLess(r, q) && At(out, r) == At(out, p);
    }
  }

  /** skimage.measure.label(g, background=0). */
  method Label(g: Grid) returns (out: Grid, n: nat)
    ensures IsLabelling(g, out, n)
  {
    var ps := Foreground(g);
    AdjSymmetric(g);
    var comp, count := Components(ps, Adj(g));
    out, n := Relabel(g, comp), count;
    RelabelIsLabelling(g, ps, comp, count);
  }

  /** The components of the raster-ordered foreground, numbered from 1, are
      the labelling. */
  lemma RelabelIsLabelling(g: Grid, ps: seq<Pixel>, comp: map<Pixel, nat>, count: nat)
    requires forall p :: p in ps <==> Fg(g, p)
    requires forall a, b :: 0 <= a < b < |ps| ==> RasterLess(ps[a], ps[b])
    requires forall x :: x in comp <==> x in ps
    requires forall k :: 0 <= k < |ps| ==> ps[k] in comp
    requires forall x :: x in comp ==> comp[x] < count
    requires forall c :: 0 <= c < count ==> c in comp.Values
    requires forall x, y :: x in comp && y in comp ==> (comp[x] == comp[y] <==> Reach(Adj(g), x, y))
    requires forall i, j :: 0 <= i < |ps| && 0 <= j < |ps| && comp[ps[i]] < comp[ps[j]] ==>
               exists k :: 0 <= k < j && comp[ps[k]] == comp[ps[i]]
    ensures IsLabelling(g, Relabel(g, comp), count)
  {
    RelabelRange(g, comp, count);
    RelabelUsesAll(g, comp, count);
    RelabelConnected(g, comp);
    RelabelOrder(g, ps, comp);
  }
}
