/** The post-processing chain of process_single_image, from the quantizer to
    the final labelling.  The preprocessed image, the k-means cluster ids and
    the region-of-interest mask come from library code and are parameters. */
module Pipeline {
  import opened Grids
  import opened Labelling
  import opened Quantize
  import opened Refine
  import opened Prune
  import opened Modes
  import opened Merge
  import opened Cleanup

  /** min_size of remove_small_clusters. */
  const ClusterMinSize := 20
  /** min_size of remove_noise_and_background. */
  const NoiseMinSize := 10

  /** quantize, refine_kmeans_with_roi, remove_small_clusters,
      calculate_cluster_modes, merge_clusters and remove_noise_and_background
      in the order process_single_image runs them.  The result has the input's
      shape, its values are 0..n with every label 1..n used, every label covers
      at least NoiseMinSize pixels, and when
      the region of interest leaves some pixel out, everything outside it is
      background. */
  method Segment(img: Image, clusters: Grid, roi: Mask)
    returns (final: Grid, n: nat, ghost cleaned: Grid, ghost m: nat, ghost modes: map<int, int>, ghost merged: Grid)
    requires IsGrid(clusters) && SameShape(clusters, roi) && SameShape(img, clusters)
    requires UnitRange(img)
    // each stage's result meets that stage's specification
    ensures IsGrid(cleaned) && SameShape(cleaned, clusters)
    ensures IsLabelling(Thresholded(RefineWithRoi(clusters, roi), ClusterMinSize), cleaned, m)
    ensures var q := QuantizeImage(img);
              SameShape(q, cleaned) && (forall l :: l in modes <==> l in Values(cleaned) && l != 0) &&
              (forall l :: l in modes ==> IsMode(cleaned, q, l, modes[l]))
    ensures IsMerge(cleaned, modes, merged)
    ensures IsLabelling(Denoised(merged, NoiseMinSize), final, n)
    // and what the chain guarantees as a whole
    ensures SameShape(final, clusters)
    ensures forall i, j :: InGrid(final, i, j) ==> 0 <= final[i][j] <= n
    ensures forall k :: 1 <= k <= n ==> k in Values(final)
    ensures forall k :: 1 <= k <= n ==> Area(final, k) >= NoiseMinSize
    ensures (exists i, j :: InGrid(clusters, i, j) && !roi[i][j]) ==>
              forall i, j :: InGrid(clusters, i, j) && !roi[i][j] ==> final[i][j] == 0
  {
    var q := QuantizeImage(img);
    var refined := RefineWithRoi(clusters, roi);
    RefineSpec(clusters, roi);
    var c, k := RemoveSmallClusters(refined, ClusterMinSize);
    PrunedShape(clusters, refined, c, k);
    ShapeTrans(q, img, clusters);
    ShapeTrans(q, clusters, c);
    var md := ClusterModes(c, q);
    var mg := MergeClusters(c, md);
    final, n := RemoveNoiseAndBackground(mg, NoiseMinSize);
    cleaned, m, modes, merged := c, k, md, mg;
    Conclude(clusters, roi, refined, cleaned, m, modes, merged, final, n);
  }

  lemma PrunedShape(clusters: Grid, refined: Grid, cleaned: Grid, m: nat)
    requires IsGrid(clusters) && SameShape(refined, clusters)
    requires IsLabelling(Thresholded(refined, ClusterMinSize), cleaned, m)
    ensures IsGrid(cleaned) && SameShape(cleaned, clusters)
  {
    ShapeTrans(cleaned, Thresholded(refined, ClusterMinSize), refined);
    ShapeTrans(cleaned, refined, clusters);
  }

  /** What the chain guarantees, from what each stage guarantees. */
  lemma Conclude(clusters: Grid, roi: Mask, refined: Grid, cleaned: Grid, m: nat, modes: map<int, int>,
                 merged: Grid, final: Grid, n: nat)
    requires IsGrid(clusters) && SameShape(clusters, roi)
    requires refined == RefineWithRoi(clusters, roi)
    requires IsGrid(cleaned) && SameShape(cleaned, clusters)
    requires IsLabelling(Thresholded(refined, ClusterMinSize), cleaned, m)
    requires IsMerge(cleaned, modes, merged)
    requires IsLabelling(Denoised(merged, NoiseMinSize), final, n)
    ensures SameShape(final, clusters)
    ensures forall i, j :: InGrid(final, i, j) ==> 0 <= final[i][j] <= n
    ensures forall k :: 1 <= k <= n ==> k in Values(final)
    ensures forall k :: 1 <= k <= n ==> Area(final, k) >= NoiseMinSize
    ensures (exists i, j :: InGrid(clusters, i, j) && !roi[i][j]) ==>
              forall i, j :: InGrid(clusters, i, j) && !roi[i][j] ==> final[i][j] == 0
  {
    ShapeTrans(merged, cleaned, clusters);
    ShapeTrans(final, Denoised(merged, NoiseMinSize), merged);
    ShapeTrans(final, merged, clusters);
    AllRegionsLarge(merged, final, n);
    FinalRange(merged, final, n);
    if exists i, j :: InGrid(clusters, i, j) && !roi[i][j] {
      var i0, j0 :| InGrid(clusters, i0, j0) && !roi[i0][j0];
      RoiBackground(clusters, roi, refined, cleaned, m, modes, merged, (i0, j0));
      FinalOutside(roi, merged, final, n);
    }
  }

  /** With a pixel outside the region, the merge leaves everything outside
      it as background. */
  lemma RoiBackground(clusters: Grid, roi: Mask, refined: Grid, cleaned: Grid, m: nat, modes: map<int, int>,
                      merged: Grid, z: Pixel)
    requires IsGrid(clusters) && SameShape(clusters, roi)
    requires refined == RefineWithRoi(clusters, roi)
    requires IsGrid(cleaned) && SameShape(cleaned, clusters)
    requires IsLabelling(Thresholded(refined, ClusterMinSize), cleaned, m)
    requires IsMerge(cleaned, modes, merged)
    requires InGrid(clusters, z.0, z.1) && !roi[z.0][z.1]
    ensures SameShape(merged, roi)
    ensures forall i, j :: InGrid(merged, i, j) && !roi[i][j] ==> merged[i][j] == 0
  {
    RefineSpec(clusters, roi);
    ShapeTrans(refined, clusters, roi);
    CleanedOutside(refined, roi, cleaned, m);
    OutsideStaysBackground(roi, cleaned, modes, merged, z);
  }

  /** The result holds only the values 0..n, and every label 1..n occurs. */
  lemma FinalRange(merged: Grid, final: Grid, n: nat)
    requires IsLabelling(Denoised(merged, NoiseMinSize), final, n)
    ensures forall i, j :: InGrid(final, i, j) ==> 0 <= final[i][j] <= n
    ensures forall k :: 1 <= k <= n ==> k in Values(final)
  {
    forall i, j | InGrid(final, i, j)
      ensures 0 <= final[i][j] <= n
    {
      assert 0 <= At(final, (i, j)) <= n;
    }
  }

  lemma AllRegionsLarge(merged: Grid, final: Grid, n: nat)
    requires IsLabelling(Denoised(merged, NoiseMinSize), final, n)
    ensures forall k :: 1 <= k <= n ==> Area(final, k) >= NoiseMinSize
  {
    forall k | 1 <= k <= n
      ensures Area(final, k) >= NoiseMinSize
    {
      FinalRegionsLarge(merged, NoiseMinSize, final, n, k);
    }
  }

  /** After remove_small_clusters, pixels outside the region are background
      and no label is negative. */
  lemma CleanedOutside(refined: Grid, roi: Mask, cleaned: Grid, m: nat)
    requires SameShape(refined, roi)
    requires forall i, j :: InGrid(refined, i, j) && !roi[i][j] ==> refined[i][j] == 0
    requires IsLabelling(Thresholded(refined, ClusterMinSize), cleaned, m)
    ensures SameShape(cleaned, roi)
    ensures forall i, j :: InGrid(cleaned, i, j) && !roi[i][j] ==> cleaned[i][j] == 0
    ensures forall p: Pixel :: InGrid(cleaned, p.0, p.1) ==> At(cleaned, p) >= 0
  {
    var t := Thresholded(refined, ClusterMinSize);
    forall i, j | InGrid(cleaned, i, j) && !roi[i][j]
      ensures cleaned[i][j] == 0
    {
      ThresholdedClears(refined, ClusterMinSize, i, j);
      assert At(cleaned, (i, j)) == 0 <==> At(t, (i, j)) == 0;
    }
  }

  /** Pixels outside the region of interest are background after merging,
      given that at least one such pixel exists. */
  lemma OutsideStaysBackground(roi: Mask, cleaned: Grid, modes: map<int, int>, merged: Grid, z: Pixel)
    requires IsGrid(cleaned) && SameShape(cleaned, roi)
    requires forall i, j :: InGrid(cleaned, i, j) && !roi[i][j] ==> cleaned[i][j] == 0
    requires forall p: Pixel :: InGrid(cleaned, p.0, p.1) ==> At(cleaned, p) >= 0
    requires IsMerge(cleaned, modes, merged)
    requires InGrid(cleaned, z.0, z.1) && !roi[z.0][z.1]
    ensures SameShape(merged, roi)
    ensures forall i, j :: InGrid(merged, i, j) && !roi[i][j] ==> merged[i][j] == 0
  {
    MergeKeepsBackground(cleaned, modes, merged, z);
    forall i, j | InGrid(merged, i, j) && !roi[i][j]
      ensures merged[i][j] == 0
    {
      assert At(cleaned, (i, j)) == 0;
    }
  }

  /** Background outside the region survives the last step. */
  lemma FinalOutside(roi: Mask, merged: Grid, final: Grid, n: nat)
    requires SameShape(merged, roi)
    requires forall i, j :: InGrid(merged, i, j) && !roi[i][j] ==> merged[i][j] == 0
    requires IsLabelling(Denoised(merged, NoiseMinSize), final, n)
    ensures forall i, j :: InGrid(final, i, j) && !roi[i][j] ==> final[i][j] == 0
  {
    forall i, j | InGrid(final, i, j) && !roi[i][j]
      ensures final[i][j] == 0
    {
      Survives(merged, NoiseMinSize, final, n, (i, j));
    }
  }
}
