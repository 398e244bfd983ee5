/** remove_noise_and_background: the image is split into its connected
    regions, every region with fewer than `minSize` pixels is set to 0 in a
    copy of the image, and the copy is labelled again.  Only small regions
    go; regions that touch the background are kept. */
module Cleanup {
  import opened Grids
  import opened Graphs
  import opened Labelling

  /** The foreground pixels connected to p in g: p's region. */
  ghost function Region(g: Grid, p: Pixel): set<Pixel> {
    set i, j | 0 <= i < |g| && 0 <= j < |g[i]| && Fg(g, (i, j)) && Connected(g, p, (i, j)) :: (i, j)
  }

  /** seg with every region of fewer than minSize pixels cleared. */
  ghost function Denoised(seg: Grid, minSize: int): (r: Grid)
    ensures SameShape(r, seg)
  {
    seq(|seg|, i requires 0 <= i < |seg| =>
      seq(|seg[i]|, j requires 0 <= j < |seg[i]| =>
        if seg[i][j] != 0 && |Region(seg, (i, j))| < minSize then 0 else seg[i][j]))
  }

  /** The pixels a labelling gives p's label are p's region. */
  lemma RegionIsLabel(g: Grid, L: Grid, m: nat, p: Pixel)
    requires IsLabelling(g, L, m) && Fg(g, p)
    ensures PixelsOf(L, At(L, p)) == Region(g, p)
  {
    forall q | q in PixelsOf(L, At(L, p))
      ensures q in Region(g, p)
    {
      assert InGrid(g, q.0, q.1) && At(L, q) != 0;
    }
    forall q | q in Region(g, p)
      ensures q in PixelsOf(L, At(L, p))
    {
      assert At(L, q) == At(L, p);
    }
  }

  /** remove_noise_and_background(seg, min_size): the loop over the regions
      of the first labelling, then the second labelling. */
  method RemoveNoiseAndBackground(seg: Grid, minSize: int) returns (out: Grid, n: nat)
    ensures IsLabelling(Denoised(seg, minSize), out, n)
  {
    var L, m := Label(seg);
    var cleaned := seg;
    for r := 1 to m + 1
      invariant SameShape(cleaned, seg)
      invariant forall i, j :: InGrid(seg, i, j) ==>
                  cleaned[i][j] == if 1 <= L[i][j] < r && Area(L, L[i][j]) < minSize then 0 else seg[i][j]
    {
      if Area(L, r) < minSize {
        cleaned := SetWhere(cleaned, L, r, 0);
      }
    }
    forall i, j | InGrid(seg, i, j)
      ensures cleaned[i][j] == Denoised(seg, minSize)[i][j]
    {
      if seg[i][j] != 0 {
        RegionIsLabel(seg, L, m, (i, j));
      }
    }
    GridExt(cleaned, Denoised(seg, minSize));
    out, n := Label(cleaned);
  }

  /** Neighbouring pixels share their region. */
  lemma RegionShared(g: Grid, a: Pixel, b: Pixel)
    requires Touch(g, a, b)
    ensures Region(g, a) == Region(g, b)
  {
    var adj := Adj(g);
    AdjSymmetric(g);
    ReachRefl(adj, a);
    ReachStep(adj, a, a, b);
    ReachSym(adj, a, b);
    forall x | x in Region(g, a)
      ensures x in Region(g, b)
    {
      ReachTrans(adj, b, a, x);
    }
    forall x | x in Region(g, b)
      ensures x in Region(g, a)
    {
      ReachTrans(adj, a, b, x);
    }
  }

  /** The foreground of the denoised image. */
  ghost function Survivors(seg: Grid, minSize: int): set<Pixel> {
    var d := Denoised(seg, minSize);
    set i, j | 0 <= i < |d| && 0 <= j < |d[i]| && Fg(d, (i, j)) :: (i, j)
  }

  /** A neighbourhood step of the denoised image is one of seg. */
  lemma StepsOfDenoised(seg: Grid, minSize: int)
    ensures forall a, b :: a in Survivors(seg, minSize) && Adj(Denoised(seg, minSize))(a, b) ==>
              b in Survivors(seg, minSize) && Adj(seg)(a, b)
  {
  }

  /** A neighbourhood step of seg out of a kept pixel stays among kept pixels
      and is one of the denoised image. */
  lemma StepsFromKept(seg: Grid, minSize: int)
    ensures forall a, b :: a in Survivors(seg, minSize) && Adj(seg)(a, b) ==>
              b in Survivors(seg, minSize) && Adj(Denoised(seg, minSize))(a, b)
  {
    forall a, b | a in Survivors(seg, minSize) && Adj(seg)(a, b)
      ensures b in Survivors(seg, minSize) && Adj(Denoised(seg, minSize))(a, b)
    {
      RegionShared(seg, a, b);
    }
  }

  /** A pixel that survives denoising keeps its whole region: its region in
      the denoised image is its region in seg. */
  lemma KeptRegion(seg: Grid, minSize: int, p: Pixel)
    requires Fg(Denoised(seg, minSize), p)
    ensures Region(Denoised(seg, minSize), p) == Region(seg, p)
  {
    var d := Denoised(seg, minSize);
    var S := Survivors(seg, minSize);
    assert p in S;
    StepsOfDenoised(seg, minSize);
    StepsFromKept(seg, minSize);
    forall q | q in Region(d, p)
      ensures q in Region(seg, p)
    {
      ReachTransfer(Adj(d), Adj(seg), S, p, q);
    }
    forall q | q in Region(seg, p)
      ensures q in Region(d, p)
    {
      ReachTransfer(Adj(seg), Adj(d), S, p, q);
    }
  }

  /** A pixel survives exactly when it is foreground and its region has at
      least minSize pixels. */
  lemma Survives(seg: Grid, minSize: int, out: Grid, n: nat, p: Pixel)
    requires IsLabelling(Denoised(seg, minSize), out, n) && InGrid(seg, p.0, p.1)
    ensures At(out, p) != 0 <==> Fg(seg, p) && |Region(seg, p)| >= minSize
  {
  }

  /** Each output region is a whole region of seg of at least minSize pixels. */
  lemma OutputRegion(seg: Grid, minSize: int, out: Grid, n: nat, p: Pixel)
    requires IsLabelling(Denoised(seg, minSize), out, n)
    requires InGrid(seg, p.0, p.1) && At(out, p) != 0
    ensures PixelsOf(out, At(out, p)) == Region(seg, p)
    ensures |Region(seg, p)| >= minSize
  {
    var d := Denoised(seg, minSize);
    assert Fg(d, p);
    RegionIsLabel(d, out, n, p);
    KeptRegion(seg, minSize, p);
  }

  /** Every label of the result covers at least minSize pixels. */
  lemma FinalRegionsLarge(seg: Grid, minSize: int, out: Grid, n: nat, k: int)
    requires IsLabelling(Denoised(seg, minSize), out, n) && 1 <= k <= n
    ensures Area(out, k) >= minSize
  {
    var p := PixelWith(out, k);
    OutputRegion(seg, minSize, out, n, p);
  }

  /** Denoising a second time changes nothing. */
  lemma DenoisedIdempotent(seg: Grid, minSize: int)
    ensures Denoised(Denoised(seg, minSize), minSize) == Denoised(seg, minSize)
  {
    var d := Denoised(seg, minSize);
    forall i, j | InGrid(d, i, j)
      ensures Denoised(d, minSize)[i][j] == d[i][j]
    {
      if d[i][j] != 0 {
        KeptRegion(seg, minSize, (i, j));
      }
    }
    GridExt(Denoised(d, minSize), d);
  }
}
