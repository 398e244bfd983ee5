/** The quantizer: every pixel of the preprocessed image (a value in [0, 1])
    goes to one of 8 grey levels, floor(8 v), with the value 1.0, which would
    give 8, folded into level 7. */
module Quantize {
  import opened Grids

  /** A grey image with values in [0, 1]. */
  type Image = seq<seq<real>>

  predicate UnitRange(img: Image) {
    forall i, j :: 0 <= i < |img| && 0 <= j < |img[i]| ==> 0.0 <= img[i][j] <= 1.0
  }

  /** np.floor(img * 8), before the cast. */
  function FloorScaled(img: Image): (r: Grid)
    ensures SameShape(r, img)
    ensures forall i, j :: 0 <= i < |img| && 0 <= j < |img[i]| ==>
              r[i][j] as real <= 8.0 * img[i][j] < (r[i][j] + 1) as real
  {
    seq(|img|, i requires 0 <= i < |img| =>
      seq(|img[i]|, j requires 0 <= j < |img[i]| => (img[i][j] * 8.0).Floor))
  }

  /** The level of one value: floor(8 v) in 0..7 for v below 1, and 7 for 1. */
  function Level(v: real): (q: int)
    requires 0.0 <= v <= 1.0
    ensures 0 <= q <= 7
    ensures q as real <= 8.0 * v
    ensures v < 1.0 ==> 8.0 * v < (q + 1) as real
    ensures v == 1.0 ==> q == 7
  {
    var f := (v * 8.0).Floor;
    if f == 8 then 7 else f
  }

  /** Level k (below 7) holds exactly the values of [k/8, (k+1)/8); level 7
      holds [7/8, 1]. */
  lemma LevelBins(v: real, k: int)
    requires 0.0 <= v <= 1.0 && 0 <= k <= 7
    ensures Level(v) == k <==> (k as real <= 8.0 * v && (k < 7 ==> 8.0 * v < (k + 1) as real))
  {
  }

  /** Brighter pixels never get a lower level. */
  lemma LevelMonotone(v: real, w: real)
    requires 0.0 <= v <= w <= 1.0
    ensures Level(v) <= Level(w)
  {
  }

  /** quantized = np.floor(img * 8); quantized[quantized == 8] = 7. */
  function QuantizeImage(img: Image): (q: Grid)
    requires UnitRange(img)
    ensures SameShape(q, img)
    ensures forall i, j :: 0 <= i < |img| && 0 <= j < |img[i]| ==> q[i][j] == Level(img[i][j])
  {
    var f := FloorScaled(img);
    SetWhere(f, f, 8, 7)
  }
}
