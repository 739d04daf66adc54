/**
 * The object mask of one plate image (python/preprocessing/preprocess_data.py):
 * thresholding, the choice of the scanner-border component, and the three
 * in-place clean-up steps applied to the mask before patches are cut.
 */
module Mask {
  import opened Common
  import opened Grids
  import opened PySlice

  /** Components with fewer pixels than this are dropped as noise. */
  const MinObjectPixels: nat := 1024

  /** The value OpenCV's binary threshold writes for a foreground pixel. */
  const Foreground: int := 255

  datatype Error =
    /** `np.argmax` of an empty sequence: the border mask has no foreground component. */
    | NoForegroundComponent

  /**
   * The output of `cv.connectedComponentsWithStats` that the code uses: the
   * number of labels (background included), the label map, the area column
   * of the statistics and the centroids already cast to `int` as (x, y).
   */
  datatype Components = Components(count: nat, labels: Grid, areas: seq<int>, centroids: seq<(int, int)>)

  /**
   * What the labelling routine guarantees about its output for `mask`: label 0
   * is the background, every foreground label names at least one pixel, the
   * areas are the pixel counts of the label map and the centroids of the
   * foreground components lie inside the image.
   */
  ghost predicate ComponentsOf(c: Components, mask: Grid) {
    var h, w := |mask|, Width(mask);
    && IsImage(mask)
    && 1 <= c.count
    && IsGrid(c.labels, h, w)
    && (forall i, j :: 0 <= i < h && 0 <= j < w ==> 0 <= c.labels[i][j] < c.count)
    && (forall i, j :: 0 <= i < h && 0 <= j < w ==> (c.labels[i][j] == 0 <==> mask[i][j] == 0))
    && |c.areas| == c.count
    && (forall l :: 0 <= l < c.count ==> c.areas[l] == Count(c.labels, l))
    && (forall l :: 1 <= l < c.count ==> c.areas[l] > 0)
    && |c.centroids| == c.count
    && (forall l :: 1 <= l < c.count ==> 0 <= c.centroids[l].0 < w && 0 <= c.centroids[l].1 < h)
  }

  // ---------------------------------------------------------------------
  // Thresholding (`binary`, OpenCV THRESH_BINARY with maximum value 255)

  /** One pixel of a binary threshold: foreground exactly when strictly above the threshold. */
  function ThresholdPixel(v: int, threshold: int): (r: int)
    ensures r == 0 || r == Foreground
    ensures r == Foreground <==> v > threshold
  {
    if v > threshold then Foreground else 0
  }

  /** A binary mask holds only the two values 0 and 255. */
  ghost predicate IsBinary(g: Grid) {
    forall i, j :: 0 <= i < |g| && 0 <= j < |g[i]| ==> g[i][j] == 0 || g[i][j] == Foreground
  }

  /** The thresholded image of an already blurred grayscale image. */
  function Threshold(gray: Grid, threshold: int): (r: Grid)
    ensures |r| == |gray|
    ensures forall i :: 0 <= i < |gray| ==> |r[i]| == |gray[i]|
    ensures IsBinary(r)
    ensures forall i, j :: 0 <= i < |gray| && 0 <= j < |gray[i]| ==>
      (r[i][j] == Foreground <==> gray[i][j] > threshold)
  {
    seq(|gray|, i requires 0 <= i < |gray| =>
      seq(|gray[i]|, j requires 0 <= j < |gray[i]| => ThresholdPixel(gray[i][j], threshold)))
  }

  /** `binary`: a fresh mask array holding the thresholded image. */
  method Binary(gray: Grid, threshold: int) returns (mask: array2<int>)
    requires IsImage(gray)
    ensures fresh(mask)
    ensures mask.Length0 == |gray| && mask.Length1 == Width(gray)
    ensures Contents(mask) == Threshold(gray, threshold)
  {
    mask := new int[|gray|, Width(gray)];
    forall i, j | 0 <= i < mask.Length0 && 0 <= j < mask.Length1 {
      mask[i, j] := ThresholdPixel(gray[i][j], threshold);
    }
    GridExtensionality(Contents(mask), Threshold(gray, threshold), mask.Length0, mask.Length1);
  }

  /** Zeroing pixels never brings in a value other than 0 and 255. */
  lemma ZeroedKeepsBinary(g: Grid, sel: (nat, nat) -> bool)
    requires IsBinary(g)
    ensures IsBinary(Zeroed(g, sel))
  {
  }

  // ---------------------------------------------------------------------
  // The border label: `np.argmax(stats[1:, AREA]) + 1`

  /** `np.argmax`: the index of the first maximum of a non-empty sequence. */
  function ArgMax(s: seq<int>): (k: nat)
    requires |s| > 0
    ensures k < |s|
    ensures forall i :: 0 <= i < |s| ==> s[i] <= s[k]
    ensures forall i :: 0 <= i < k ==> s[i] < s[k]
  {
    if |s| == 1 then 0
    else
      var k := ArgMax(s[..|s| - 1]);
      if s[|s| - 1] > s[k] then |s| - 1 else k
  }

  /**
   * The label of the scanner border: the foreground label of largest area,
   * the lowest such label on a tie. With no foreground label `np.argmax`
   * raises.
   */
  function BorderLabel(areas: seq<int>): (r: Result<nat, Error>)
    ensures r.Err? <==> |areas| <= 1
    ensures r.Ok? ==> 1 <= r.value < |areas|
    ensures r.Ok? ==> forall l :: 1 <= l < |areas| ==> areas[l] <= areas[r.value]
    ensures r.Ok? ==> forall l :: 1 <= l < r.value ==> areas[l] < areas[r.value]
  {
    if |areas| <= 1 then Err(NoForegroundComponent)
    else
      var k := ArgMax(areas[1..]);
      assert forall l :: 1 <= l < |areas| ==> areas[l] == areas[1..][l - 1];
      Ok(k + 1)
  }

  /** With consistent statistics, the border component has the most pixels of all foreground components. */
  lemma BorderIsLargestComponent(c: Components, mask: Grid)
    requires ComponentsOf(c, mask)
    requires BorderLabel(c.areas).Ok?
    ensures forall l :: 1 <= l < c.count ==>
      Count(c.labels, l) <= Count(c.labels, BorderLabel(c.areas).value)
  {
  }

  // ---------------------------------------------------------------------
  // Border removal: `image_binary[image_cc == border_label] = 0`

  /** The boolean mask `labels == label`. */
  function LabelIs(labels: Grid, id: int): (sel: (nat, nat) -> bool)
    ensures forall i: nat, j: nat :: i < |labels| && j < |labels[i]| ==> (sel(i, j) <==> labels[i][j] == id)
  {
    (i: nat, j: nat) => i < |labels| && j < |labels[i]| && labels[i][j] == id
  }

  /** Zero every object-mask pixel that the border pass labelled as the border. */
  method RemoveBorder(mask: array2<int>, labels: Grid, borderLabel: int)
    requires IsGrid(labels, mask.Length0, mask.Length1)
    modifies mask
    ensures Contents(mask) == Zeroed(old(Contents(mask)), LabelIs(labels, borderLabel))
    ensures forall i, j :: 0 <= i < mask.Length0 && 0 <= j < mask.Length1 ==>
      mask[i, j] == if labels[i][j] == borderLabel then 0 else old(mask[i, j])
  {
    ZeroWhere(mask, LabelIs(labels, borderLabel));
  }

  // ---------------------------------------------------------------------
  // Edge margins: `[:m]`, `[-m:-1]` on the rows, then on the columns

  /**
   * Pixel (i, j) of an h by w mask is cleared by one of the four slice
   * assignments with margin m.
   */
  predicate InMargin(i: nat, j: nat, m: int, h: nat, w: nat) {
    || InSlice(i, None, Some(m), h)
    || InSlice(i, Some(-m), Some(-1), h)
    || InSlice(j, None, Some(m), w)
    || InSlice(j, Some(-m), Some(-1), w)
  }

  /**
   * For a margin m >= 1 the cleared pixels are exactly the top m rows, the
   * rows [h - m, h - 1), the left m columns and the columns [w - m, w - 1):
   * the last row and the last column are outside the bottom and right bands.
   */
  lemma MarginBands(i: nat, j: nat, m: int, h: nat, w: nat)
    requires 1 <= m && i < h && j < w
    ensures InMargin(i, j, m, h, w) <==>
      i < m || h - m <= i < h - 1 || j < m || w - m <= j < w - 1
  {
    HeadSlice(i, m, h);
    TailSlice(i, m, h);
    HeadSlice(j, m, w);
    TailSlice(j, m, w);
  }

  /** For m >= 1, a pixel outside all four bands is not cleared; the last row and the last column lie outside the bottom and right bands. */
  lemma MarginKeeps(i: nat, j: nat, m: int, h: nat, w: nat)
    requires 1 <= m && i < h && j < w
    requires m <= i && m <= j
    requires (i == h - 1 || i < h - m) && (j == w - 1 || j < w - m)
    ensures !InMargin(i, j, m, h, w)
  {
    MarginBands(i, j, m, h, w);
  }

  /** With margin 0, `[-0:-1]` clears everything but the last row and the last column. */
  lemma MarginZero(i: nat, j: nat, h: nat, w: nat)
    requires i < h && j < w
    ensures InMargin(i, j, 0, h, w) <==> i < h - 1 || j < w - 1
  {
    HeadSlice(i, 0, h);
    TailSliceZero(i, h);
    HeadSlice(j, 0, w);
    TailSliceZero(j, w);
  }

  /** The pixels the four margin assignments select. */
  function MarginSel(m: int, h: nat, w: nat): (sel: (nat, nat) -> bool)
    ensures forall i: nat, j: nat :: sel(i, j) <==> InMargin(i, j, m, h, w)
  {
    (i: nat, j: nat) => InMargin(i, j, m, h, w)
  }

  /** Clear the edge margins of the mask in place, one slice assignment at a time. */
  method SuppressMargins(mask: array2<int>, m: int)
    modifies mask
    ensures Contents(mask) == Zeroed(old(Contents(mask)), MarginSel(m, mask.Length0, mask.Length1))
  {
    ghost var before := Contents(mask);
    var h, w := mask.Length0, mask.Length1;
    ZeroWhere(mask, (i: nat, j: nat) => InSlice(i, None, Some(m), h));        // image_binary[:m] = 0
    ZeroWhere(mask, (i: nat, j: nat) => InSlice(i, Some(-m), Some(-1), h));   // image_binary[-m:-1] = 0
    ZeroWhere(mask, (i: nat, j: nat) => InSlice(j, None, Some(m), w));        // image_binary[:, :m] = 0
    ZeroWhere(mask, (i: nat, j: nat) => InSlice(j, Some(-m), Some(-1), w));   // image_binary[:, -m:-1] = 0
    GridExtensionality(Contents(mask), Zeroed(before, MarginSel(m, h, w)), h, w);
  }

  // ---------------------------------------------------------------------
  // Small objects: labels of `np.unique` whose counts are below 1024

  /** `labels[pixel_counts < 1024]` for the foreground pixels of a label map. */
  function SmallLabels(labels: Grid): (small: set<int>)
    ensures forall l :: l in small ==> l > 0 && Count(labels, l) < MinObjectPixels
  {
    set l | l in Values(labels) && l > 0 && Count(labels, l) < MinObjectPixels
  }

  /** A label is small exactly when it is a foreground label with between 1 and 1023 pixels; label 0 never is. */
  lemma SmallLabelsExact(labels: Grid, l: int)
    ensures l in SmallLabels(labels) <==> l > 0 && 0 < Count(labels, l) < MinObjectPixels
  {
    CountPositive(labels, l);
  }

  /** `np.isin(image_cc, small)`. */
  function LabelIn(labels: Grid, ids: set<int>): (sel: (nat, nat) -> bool)
    ensures forall i: nat, j: nat :: i < |labels| && j < |labels[i]| ==> (sel(i, j) <==> labels[i][j] in ids)
  {
    (i: nat, j: nat) => i < |labels| && j < |labels[i]| && labels[i][j] in ids
  }

  /**
   * A pixel is selected by the small-object filter exactly when its label is
   * a foreground label with fewer than 1024 pixels in the label map.
   */
  lemma SmallSelExact(labels: Grid, i: nat, j: nat)
    requires i < |labels| && j < |labels[i]|
    ensures LabelIn(labels, SmallLabels(labels))(i, j) <==>
      labels[i][j] > 0 && Count(labels, labels[i][j]) < MinObjectPixels
  {
    assert labels[i][j] in Values(labels);
    SmallLabelsExact(labels, labels[i][j]);
    CountPositive(labels, labels[i][j]);
  }

  /** The result of the small-object filter on a mask value. */
  function WithoutSmall(mask: Grid, labels: Grid): (r: Grid)
  {
    Zeroed(mask, LabelIn(labels, SmallLabels(labels)))
  }

  /** Filtering small objects a second time with the same label map changes nothing. */
  lemma SmallFilterIdempotent(mask: Grid, labels: Grid)
    ensures WithoutSmall(WithoutSmall(mask, labels), labels) == WithoutSmall(mask, labels)
  {
    ZeroedIdempotent(mask, LabelIn(labels, SmallLabels(labels)));
  }

  /** Zero every mask pixel whose label in `labels` has fewer than 1024 pixels. */
  method RemoveSmallObjects(mask: array2<int>, labels: Grid) returns (small: set<int>)
    requires IsGrid(labels, mask.Length0, mask.Length1)
    modifies mask
    ensures small == SmallLabels(labels)
    ensures Contents(mask) == WithoutSmall(old(Contents(mask)), labels)
  {
    small := SmallLabels(labels);
    ZeroWhere(mask, LabelIn(labels, small));
  }
}
