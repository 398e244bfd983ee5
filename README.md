# Label-grid post-processing of the k-means segmentation pipeline

This project models, in Dafny, the part of `process_single_image` in
`test_km.py` that turns cluster ids into a final segmentation. It proves
properties of that model. The stages are:

1. **Quantizer**: an intensity in [0, 1] becomes one of 8 grey levels, `floor(8 v)`, with 1.0 folded into level 7.
2. **refine_kmeans_with_roi**: k-means ids are zeroed outside the region of interest (ROI). They are then replaced by their rank among the remaining distinct values (np.unique's inverse index) plus one, and zeroed outside the ROI again.
3. **remove_small_clusters**: every nonzero label with fewer than 20 pixels in the whole image is cleared. The image is then labelled again into connected regions.
4. **calculate_cluster_modes**: each nonzero label gets its most frequent quantized level. Ties go to the smallest level.
5. **merge_clusters**: labels are joined by an edge when they differ, are both nonzero, sit on neighbouring pixels and have the same mode.
   - Neighbours are found with the four `np.roll` shifts, so they wrap around the image border.
   - Each label is replaced by the number of its connected component in the label graph. Components are numbered 0, 1, ... in the order of their smallest label.
6. **remove_noise_and_background**: every connected region with fewer than 10 pixels is cleared, and the result is labelled again.

skimage's `label` is modelled by `Labelling.Label`:
- regions are 8-connected sets of equal nonzero value;
- labels run 1..n in raster order of each region's first pixel;
- the background stays 0.

`label` and networkx's `connected_components` are both one generic component search, `Graphs.Components`, proved once.

Grids are values (`seq<seq<int>>`). numpy's whole-array operations are functions: `SetWhere` for a masked write, `Roll`, `Area` for `np.sum(mask)`, and `Values`. Every Python loop of the source is a Dafny loop, except the component loop of merge_clusters (see below). Each loop is proved against a specification predicate or function:
- `Prune.Thresholded`
- `Modes.IsMode`
- `Merge.EdgeSet` / `Merge.Meet`
- `Merge.IsMerge`
- `Labelling.IsLabelling`
- `Cleanup.Denoised`

The modules, in pipeline order, are:
- `Grids`: shapes, masked writes, roll, np.unique.
- `Graphs`: reachability, flood fill, component search.
- `Labelling`
- `Quantize`
- `Refine`
- `Prune`
- `Modes`
- `Merge`
- `Cleanup`
- `Pipeline`

### Behaviour of the code worth knowing

- **Connectivity.** `sk_label` is called with its default connectivity, which for a 2-D image is full (8-neighbour) connectivity. `Labelling.Touch` uses 8 neighbours.
- **remove_small_clusters.** It counts the pixels of a *label over the whole image* (`np.sum(segmented_image == label_value)`), not of each connected piece (`Prune.ThresholdedClears`).
  - A small piece of a large label survives this stage (`Prune.SurvivorsLarge` bounds only whole labels).
  - The final cleanup removes such a piece only if its 8-connected region after merging has fewer than 10 pixels (`Cleanup.Survives`). A piece of 10 to 19 pixels, or one merged into a touching neighbour of equal value, reaches the output.
- **refine_kmeans_with_roi.** Labels inside the ROI are one plus the number of smaller distinct values left after masking (`Refine.RefineWithRoi`), so they follow the numeric order of the ids (`Refine.RefineSpec`).
  - When some pixel lies outside the ROI, 0 is one of the values ranked. If in addition no ROI pixel has cluster id 0, labels inside the ROI start at 2 (`Refine.RefineSkipsOne`).
  - An ROI pixel with cluster id 0 shares rank 0 with the background and gets label 1.
- **merge_clusters.** The graph's nodes include label 0, and components are numbered from 0 in ascending order of their smallest label.
  - When the image has background, 0 stays exactly the background (`Merge.MergeKeepsBackground`).
  - When the image has no 0 pixel, the first merged component is numbered 0 and so becomes background (`Merge.MergeZeroWithoutBackground`).
  - Adjacency wraps around the border (`Merge.Meet` uses torus neighbours).
  - The loops over `enumerate(nx.connected_components(G))` and over each component (test_km.py:104-106) have no loop of their own in `Merge.LabelMapping`. They are the component search `Graphs.Search`, which writes each component's number into the mapping with the map comprehension `Graphs.Paint`.
- **remove_noise_and_background.** Despite its name, it removes only regions of fewer than `min_size` pixels. Regions touching the background are kept.

## Model

| member | source | states |
|---|---|---|
| Quantize.FloorScaled | test_km.py:40 | np.floor(img * 8): same shape, and every entry f satisfies f <= 8v < f + 1 |
| Quantize.Level | test_km.py:40-41 | the level of v is in 0..7 and is floor(8v): level <= 8v < level + 1 for v < 1, and 1.0 gets 7 |
| Quantize.LevelBins | test_km.py:40-41 | level k holds exactly the values with k <= 8v < k + 1 (and 8v >= 7 for level 7) |
| Quantize.LevelMonotone | test_km.py:40-41 | a brighter pixel never gets a lower level |
| Quantize.QuantizeImage | test_km.py:40-41 | the quantized image has the input's shape and every pixel is the level of the input pixel |
| Grids.Unique | test_km.py:67 | np.unique: strictly increasing, and holds exactly the values of the set |
| Grids.Roll | test_km.py:97 | np.roll for shifts of at most one image size: the rolled grid has the input's shape |
| Grids.RollIsMod | test_km.py:97 | entry (i, j) of the rolled grid is entry ((i - dy) mod H, (j - dx) mod W) of the original |
| Grids.SetWhere | test_km.py:72 | the masked write `g[mask == v] = x` on a copy: same shape, x where the mask holds v, g unchanged elsewhere |
| Grids.Area | test_km.py:71 | np.sum(g == v): the number of pixels holding v, positive exactly when v occurs |
| Grids.WrapIsMod | test_km.py:97 | the wrapped index np.roll reads from is the index modulo the axis length |
| Refine.ZeroOutside | test_km.py:56 | `g[~roi] = 0` on a copy: 0 outside the ROI, unchanged inside |
| Refine.RefineWithRoi | test_km.py:54-60 | same shape; 0 outside the ROI; inside, one plus the number of distinct masked values below the pixel's cluster id |
| Refine.RankMonotone | test_km.py:57-58 | np.unique's inverse index keeps the order of distinct values |
| Refine.RankBound | test_km.py:57-58 | an inverse index is below the number of distinct values |
| Refine.RankIsIndex | test_km.py:57 | Rank(s, x) is the position of x in np.unique's sorted distinct values of s, i.e. the inverse index |
| Refine.RefineSpec | test_km.py:54-60 | outside the ROI every label is 0; inside, labels lie in 1..(number of distinct masked values); two ROI pixels compare by label exactly as they compare by cluster id |
| Refine.RefineSkipsOne | test_km.py:56-59 | with a pixel outside the ROI and no cluster id 0 inside it, every ROI label is at least 2 |
| Prune.DropSmallLabels | test_km.py:66-72 | the loop over np.unique clears exactly the nonzero labels of fewer than min_size pixels and leaves every other pixel unchanged |
| Prune.RemoveSmallClusters | test_km.py:65-73 | the result is the connected-region labelling of the thresholded image |
| Prune.ThresholdedClears | test_km.py:68-72 | a pixel is unchanged iff its label is 0 or covers at least min_size pixels; otherwise it becomes 0 |
| Prune.KeptPixels | test_km.py:70-72 | a label that is not small keeps every one of its pixels |
| Prune.SurvivorsLarge | test_km.py:71-72 | every nonzero label left after thresholding covers at least min_size pixels |
| Prune.ThresholdedIdempotent | test_km.py:65-72 | thresholding twice equals thresholding once |
| Graphs.Components | test_km.py:104-106 | two nodes get one component id iff a walk joins them; ids are 0..count-1, all used; a smaller id's component has an earlier node in the node order |
| Labelling.Label | test_km.py:73 | sk_label: same shape, 0 exactly on the background, labels 1..n all used, same label iff 8-connected, and regions numbered in raster order of their first pixel |
| Labelling.RelabelIsLabelling | test_km.py:73 | the component ids of the raster-ordered foreground, shifted by one, satisfy the labelling specification |
| Modes.ArgMax | test_km.py:85 | np.argmax: an index of a largest count, and every earlier count is strictly smaller (first maximum) |
| Modes.ModeOf | test_km.py:83-85 | the value chosen occurs under the label, no level occurs more often, and every smaller level occurs strictly less often |
| Modes.ClusterModes | test_km.py:78-86 | the keys are exactly the nonzero labels present, and each value is that label's mode |
| Modes.ModeUnique | test_km.py:84-85 | a label has only one mode |
| Modes.CountPositive | test_km.py:84 | a level has a positive count under a label iff it is among the levels np.unique returns for that label |
| Merge.Get | test_km.py:100 | dict.get: Some exactly for keys present, with the stored value |
| Merge.JoinsSymmetric | test_km.py:98-100 | the edge test of merge_clusters (labels differ, both positive, equal mode lookups) does not depend on the order of the two labels |
| Merge.ScanShift | test_km.py:98-101 | one shift adds exactly the label pairs at positions where the labels differ, are both positive, and have equal mode lookups |
| Merge.AdjacencyEdges | test_km.py:94-101 | the four shift loops produce exactly the edge set of the four shifts |
| Merge.EdgesAreLabels | test_km.py:98-101 | every edge joins two different positive labels of the image with equal mode lookups |
| Merge.EdgeIsMeet | test_km.py:96-101 | every edge found joins labels that sit on neighbouring pixels (across the border included) and pass the edge test |
| Merge.MeetIsEdge | test_km.py:96-101 | every such pair of labels is an edge found by the shift loops |
| Merge.ZeroIsolated | test_km.py:98 | label 0 has no edge in the merge graph |
| Merge.LabelMapping | test_km.py:103-106 | the mapping assigns each label present its component number; same number iff joined in the graph; numbers 0..count-1 all used, in order of smallest label |
| Merge.ApplyMapping | test_km.py:108-110 | every pixel gets the new number of its old label, read from the unmodified input |
| Merge.MappedIsMerge | test_km.py:103-110 | relabelling through the mapping gives the merge specification |
| Merge.MergeClusters | test_km.py:90-112 | same shape; two pixels get one value iff their labels are joined in the merge graph; values nonnegative, with no gaps; smaller values belong to components with smaller labels |
| Merge.MergeKeepsBackground | test_km.py:92-110 | with nonnegative labels and some 0 pixel, a pixel is 0 after merging iff it was 0 before |
| Merge.MergeZeroWithoutBackground | test_km.py:92-110 | with no 0 pixel, some foreground pixel is numbered 0 by the merge |
| Cleanup.RemoveNoiseAndBackground | test_km.py:117-123 | the result is the labelling of the input with every connected region of fewer than min_size pixels cleared |
| Cleanup.RegionIsLabel | test_km.py:119-122 | the pixels sharing a pixel's label in a labelling are exactly that pixel's connected region |
| Cleanup.RegionShared | test_km.py:120-122 | neighbouring pixels of one value have the same region |
| Cleanup.KeptRegion | test_km.py:121-123 | a pixel that survives keeps its whole region: its region after cleanup equals its region before |
| Cleanup.Survives | test_km.py:120-123 | a pixel is nonzero in the result iff it was foreground and its region has at least min_size pixels |
| Cleanup.OutputRegion | test_km.py:117-123 | each output label covers exactly one original connected region, of at least min_size pixels |
| Cleanup.FinalRegionsLarge | test_km.py:120-123 | every label 1..n of the result covers at least min_size pixels |
| Cleanup.DenoisedIdempotent | test_km.py:117-122 | clearing small regions twice equals clearing them once |
| Pipeline.Segment | test_km.py:40-125 | the chain quantize, refine, prune(20), modes, merge, cleanup(10): each stage's result meets that stage's specification (the pruned grid labels the thresholded refinement, the modes are the per-label modes of the quantized image, the merge meets `IsMerge`, the result labels the denoised merge); the result has the input's shape, holds only values 0..n with every label 1..n used, every label covers at least 10 pixels, and when the ROI leaves some pixel out every pixel outside it is 0 |
| Pipeline.Conclude | test_km.py:62-125 | the stage contracts together give the pipeline's guarantees |
| Pipeline.FinalRange | test_km.py:123 | the pipeline's result holds only values 0..n and uses every label 1..n |
| Pipeline.RoiBackground | test_km.py:56-114 | when some pixel is outside the ROI, every pixel outside it is 0 after merging |

## Left out

- Preprocessing (smoothing, CLAHE, median filter, resize to 128x128) is library image processing on floating point. The model takes the preprocessed image as a parameter whose values lie in [0, 1].
- ROI extraction (Otsu threshold, largest region, hole filling) is library code. The ROI mask is a parameter.
- Feature building, StandardScaler and KMeans are library numerics with random initialisation. The cluster-id grid is a parameter.
- Quantize.Level: works on exact reals. It does not model floating-point rounding of `resized * 8` or the uint8 cast; the cast cannot wrap, since the values lie in 0..8.
- The final `resize` back to the input size (nearest neighbour) and `.astype(np.uint8)` are left out. The latter would wrap label values above 255.
- Plotting, progress prints and timing are not modelled; they do not affect the result.
- Grids.Roll: models `np.roll` only for shifts of at most one image size, which covers the four unit shifts used.
- Merge.ApplyMapping: iterates the labels in ascending order instead of the dict's insertion order. Each write is masked by the old image, so the masks are disjoint and the order does not change the result.
- Labelling.Label: models skimage's `label` by its observable contract; its internal union-find is not modelled.
- Graphs.Components: models networkx's `connected_components` by its observable contract; its internal traversal is not modelled.
