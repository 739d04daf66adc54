/**
 * The crop window of one patch along one image axis
 * (python/preprocessing/preprocess_data.py, the `cx` and `cy` blocks).
 */
module Crop {
  import opened Common

  /** The patch side used by the preprocessing stage (`patch_dims`). */
  const PatchSize: nat := 224

  /** `c` clamped into `[lo, hi]`. */
  function Clamp(c: int, lo: int, hi: int): (r: int)
    requires lo <= hi
    ensures lo <= r <= hi
    ensures lo <= c <= hi ==> r == c
    ensures c < lo ==> r == lo
    ensures c > hi ==> r == hi
  {
    if c < lo then lo else if c > hi then hi else c
  }

  /**
   * The first step of the adjustment, as the code writes it: on a low-edge
   * overflow it adds the (negative) overflow, on a high-edge overflow it
   * subtracts the (negative) room left. Either way the centre moves further
   * out of the image; a centre whose window fits stays put.
   */
  function FirstStep(c: int, dim: int, p: nat): (s: int)
    ensures c - p / 2 < 0 ==> s < c
    ensures c - p / 2 >= 0 && c + p / 2 > dim ==> s > c
    ensures p / 2 <= c && c + p / 2 <= dim ==> s == c
  {
    var half := p / 2;
    if c - half < 0 then c + (c - half)
    else if c + half > dim then c - (dim - (c + half))
    else c
  }

  /**
   * The centre after the two-step adjustment: the first step, then `max`
   * with the half size on a low-edge overflow or `min` with `dim - half` on
   * a high-edge overflow.
   */
  function AdjustCenter(c: int, dim: int, p: nat): (r: int)
    ensures dim >= p ==> r == Clamp(c, p / 2, dim - p / 2)
    ensures p / 2 <= c && c + p / 2 <= dim ==> r == c
  {
    var half := p / 2;
    var shifted := FirstStep(c, dim, p);
    if c - half < 0 then Max(shifted, half)
    else if c + half > dim then Min(shifted, dim - half)
    else shifted
  }

  /**
   * Since the first step only moves an overflowing centre outwards, the
   * second step (the `max` or the `min`) alone brings it back: the result is
   * the first step's centre clamped into `[p/2, dim - p/2]`.
   */
  lemma SecondStepClamps(c: int, dim: int, p: nat)
    requires dim >= p
    ensures AdjustCenter(c, dim, p) == Clamp(FirstStep(c, dim, p), p / 2, dim - p / 2)
  {
  }

  /** The slice `[c' - p/2, c' + p/2)` the code cuts along the axis. */
  function Window(c: int, dim: int, p: nat): (r: (int, int))
    ensures dim >= p ==> 0 <= r.0 && r.1 <= dim
    ensures dim >= p && p % 2 == 0 ==> r.1 - r.0 == p
    ensures r.1 - r.0 == 2 * (p / 2)
  {
    var center := AdjustCenter(c, dim, p);
    (center - p / 2, center + p / 2)
  }

  function Abs(x: int): (r: nat)
    ensures r == x || r == -x
  {
    if x < 0 then -x else x
  }

  /**
   * Of all windows of side p that fit in the axis, the adjusted one has its
   * centre nearest to the object's centroid.
   */
  lemma WindowIsNearest(c: int, dim: int, p: nat, start: int)
    requires dim >= p && p % 2 == 0
    requires 0 <= start && start + p <= dim
    ensures Abs(AdjustCenter(c, dim, p) - c) <= Abs(start + p / 2 - c)
  {
  }
}
