/** Label grids and the whole-array numpy operations the segmentation core uses
    on them: shape, pixel sets, np.sum over a mask, a masked write, np.roll and
    np.unique.  A numpy array that a stage copies and then overwrites is modelled
    as a grid value that the stage reassigns. */
module Grids {

  /** A 2-D integer array, row by row (cluster ids, labels or quantized levels). */
  type Grid = seq<seq<int>>

  /** A position (row, column). */
  type Pixel = (int, int)

  /** Rectangular and non-empty: the working resolution is a fixed 128 x 128. */
  predicate IsGrid<A>(g: seq<seq<A>>) {
    |g| > 0 && |g[0]| > 0 && forall i :: 0 <= i < |g| ==> |g[i]| == |g[0]|
  }

  predicate SameShape<A, B>(a: seq<seq<A>>, b: seq<seq<B>>) {
    |a| == |b| && forall i :: 0 <= i < |a| ==> |a[i]| == |b[i]|
  }

  lemma ShapeTrans<A, B, C>(a: seq<seq<A>>, b: seq<seq<B>>, c: seq<seq<C>>)
    requires SameShape(a, b) && SameShape(b, c)
    ensures SameShape(a, c)
  {
  }

  predicate InGrid<A>(g: seq<seq<A>>, i: int, j: int) {
    0 <= i < |g| && 0 <= j < |g[i]|
  }

  /** The value at a position. */
  function At(g: Grid, p: Pixel): int
    requires InGrid(g, p.0, p.1)
  {
    g[p.0][p.1]
  }

  /** A foreground position: inside the grid and not 0. */
  predicate Fg(g: Grid, p: Pixel) {
    InGrid(g, p.0, p.1) && g[p.0][p.1] != 0
  }

  /** Raster (row-major) order on positions. */
  predicate RasterLess(p: Pixel, q: Pixel) {
    p.0 < q.0 || (p.0 == q.0 && p.1 < q.1)
  }

  /** The distinct values of a grid. */
  function Values(g: Grid): set<int> {
    set i, j | 0 <= i < |g| && 0 <= j < |g[i]| :: g[i][j]
  }

  /** The positions holding value v. */
  function PixelsOf(g: Grid, v: int): set<Pixel> {
    set i, j | 0 <= i < |g| && 0 <= j < |g[i]| && g[i][j] == v :: (i, j)
  }

  /** A position holding a value the grid has. */
  lemma PixelWith(g: Grid, x: int) returns (r: Pixel)
    requires x in Values(g)
    ensures InGrid(g, r.0, r.1) && At(g, r) == x
  {
    var i, j :| 0 <= i < |g| && 0 <= j < |g[i]| && g[i][j] == x;
    r := (i, j);
  }

  /** np.sum(g == v): the pixel count of value v. */
  function Area(g: Grid, v: int): (r: nat)
    ensures r > 0 <==> v in Values(g)
  {
    OccursHasPixel(g, v);
    |PixelsOf(g, v)|
  }

  /** A value occurs exactly when some position holds it. */
  lemma OccursHasPixel(g: Grid, v: int)
    ensures PixelsOf(g, v) != {} <==> v in Values(g)
  {
    if v in Values(g) {
      var p := PixelWith(g, v);
      assert p in PixelsOf(g, v);
    }
  }

  /** `g[mask == v] = x` on a copy of g: the masked write of the source. */
  function SetWhere(g: Grid, mask: Grid, v: int, x: int): (r: Grid)
    requires SameShape(g, mask)
    ensures SameShape(r, g)
    ensures forall i, j :: InGrid(g, i, j) && mask[i][j] == v ==> r[i][j] == x
    ensures forall i, j :: InGrid(g, i, j) && mask[i][j] != v ==> r[i][j] == g[i][j]
  {
    seq(|g|, i requires 0 <= i < |g| =>
      seq(|g[i]|, j requires 0 <= j < |g[i]| => if mask[i][j] == v then x else g[i][j]))
  }

  /** x taken modulo n, for x within one period of [0, n). */
  function Wrap(x: int, n: int): (r: int)
    requires -n <= x < 2 * n
    ensures 0 <= r < n
  {
    if x < 0 then x + n else if x >= n then x - n else x
  }

  /** Wrap is the mathematical x mod n on its range. */
  lemma WrapIsMod(x: int, n: int)
    requires -n <= x < 2 * n
    ensures Wrap(x, n) == x % n
  {
    var q, r := x / n, x % n;
    assert x == n * q + r && 0 <= r < n;
    if q <= -2 {
      MulMono(n, q, -2);
    } else if q >= 2 {
      MulMono(n, 2, q);
    } else if q == -1 {
      assert n * q == -n;
    } else if q == 1 {
      assert n * q == n;
    }
  }

  lemma MulMono(n: int, a: int, b: int)
    requires n > 0 && a <= b
    ensures n * a <= n * b
  {
    assert n * b - n * a == n * (b - a);
  }

  /** np.roll(g, shift=(dy, dx), axis=(0, 1)) for shifts of at most the grid's
      size: entry (i, j) is read from ((i - dy) mod H, (j - dx) mod W),
      wrapping around the borders. */
  function Roll(g: Grid, dy: int, dx: int): (r: Grid)
    requires IsGrid(g) && -|g| <= dy <= |g| && -|g[0]| <= dx <= |g[0]|
    ensures SameShape(r, g)
  {
    seq(|g|, i requires 0 <= i < |g| =>
      seq(|g[0]|, j requires 0 <= j < |g[0]| => g[Wrap(i - dy, |g|)][Wrap(j - dx, |g[0]|)]))
  }

  /** np.roll's defining equation: entry (i, j) of the rolled grid is entry
      ((i - dy) mod H, (j - dx) mod W) of the original. */
  lemma RollIsMod(g: Grid, dy: int, dx: int, i: int, j: int)
    requires IsGrid(g) && -|g| <= dy <= |g| && -|g[0]| <= dx <= |g[0]|
    requires 0 <= i < |g| && 0 <= j < |g[0]|
    ensures 0 <= (i - dy) % |g| < |g| && 0 <= (j - dx) % |g[0]| < |g[0]|
    ensures Roll(g, dy, dx)[i][j] == g[(i - dy) % |g|][(j - dx) % |g[0]|]
  {
    WrapIsMod(i - dy, |g|);
    WrapIsMod(j - dx, |g[0]|);
  }

  /** Two grids of one shape that agree everywhere are equal. */
  lemma GridExt(a: Grid, b: Grid)
    requires SameShape(a, b)
    requires forall i, j :: InGrid(a, i, j) ==> a[i][j] == b[i][j]
    ensures a == b
  {
    forall i | 0 <= i < |a|
      ensures a[i] == b[i]
    {
      assert forall j :: 0 <= j < |a[i]| ==> a[i][j] == b[i][j];
    }
  }

  predicate StrictlyIncreasing(u: seq<int>) {
    forall a, b :: 0 <= a < b < |u| ==> u[a] < u[b]
  }

  /** A non-empty set of integers has an element (stated separately so that
      `:|` on such sets goes through). */
  lemma Inhabited(s: set<int>)
    requires s != {}
    ensures exists x :: x in s
  {
    if forall x :: x !in s {
      assert false;
    }
  }

  /** A value of a map has a key (stated separately so that `:|` on such
      keys goes through). */
  lemma KeyOf(m: map<int, nat>, v: int) returns (k: int)
    requires v in m.Values
    ensures k in m && m[k] == v
  {
    if forall y :: y in m ==> m[y] != v {
      assert false;
    }
    k :| k in m && m[k] == v;
  }

  /** The least element of a non-empty finite set. */
  lemma {:induction false} MinOf(s: set<int>) returns (m: int)
    requires s != {}
    ensures m in s && forall y :: y in s ==> m <= y
  {
    Inhabited(s);
    var x :| x in s;
    if s == {x} {
      m := x;
    } else {
      var m' := MinOf(s - {x});
      m := if x < m' then x else m';
      forall y | y in s
        ensures m <= y
      {
        if y != x {
          assert y in s - {x};
        }
      }
    }
  }

  /** np.unique: the distinct values, sorted ascending. */
  method Unique(s: set<int>) returns (u: seq<int>)
    ensures StrictlyIncreasing(u)
    ensures forall x :: x in u <==> x in s
  {
    u := [];
    var rest := s;
    while rest != {}
      invariant StrictlyIncreasing(u)
      invariant forall x :: x in s <==> x in u || x in rest
      invariant forall x, y :: x in u && y in rest ==> x < y
      decreases |rest|
    {
      ghost var least := MinOf(rest);
      var m :| m in rest && forall y :: y in rest ==> m <= y;
      assert forall a :: 0 <= a < |u| ==> u[a] < m by {
        forall a | 0 <= a < |u| ensures u[a] < m {
          assert u[a] in u;
        }
      }
      u := u + [m];
      rest := rest - {m};
    }
  }

  /** Counting a subset: the one cardinality fact the proofs below need. */
  lemma {:induction false} SubsetCard<T>(a: set<T>, b: set<T>)
    requires a <= b
    ensures |a| <= |b|
  {
    if a != {} {
      var x :| x in a;
      SubsetCard(a - {x}, b - {x});
    }
  }
}
