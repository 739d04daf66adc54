/**
 * The per-image driver of python/preprocessing/preprocess_data.py: output
 * file names, the patch loop over the surviving components and the whole
 * chain from the blurred grayscale image to the list of patches.
 */
module Patches {
  import opened Common
  import opened Grids
  import opened PySlice
  import opened Mask
  import opened Crop
  import opened Format

  // ---------------------------------------------------------------------
  // Output names (`_output_path` and the `patch{:02d}` suffix)

  /**
   * The file name `_output_path` builds: the stem, then "-" and the suffix
   * when a non-empty suffix is given (an empty string is false in Python),
   * then ".png".
   */
  function OutputName(stem: string, suffix: Option<string>): (name: string)
  {
    var fileName := if suffix.Some? && suffix.value != [] then stem + "-" + suffix.value else stem;
    fileName + ".png"
  }

  /** Without a suffix, or with an empty one, the name is `stem.png`; otherwise `stem-suffix.png`. */
  lemma OutputNameForm(stem: string, suffix: Option<string>)
    ensures suffix.None? || suffix.value == [] ==> OutputName(stem, suffix) == stem + ".png"
    ensures suffix.Some? && suffix.value != [] ==> OutputName(stem, suffix) == stem + "-" + suffix.value + ".png"
  {
  }

  /** `output_dir / name`, with '/' as the separator. */
  function OutputPath(outputDir: string, stem: string, suffix: Option<string>): (path: string)
  {
    outputDir + "/" + OutputName(stem, suffix)
  }

  /** Two non-empty suffixes give the same output name for a stem only if they are equal. */
  lemma OutputNameInjective(stem: string, a: string, b: string)
    requires a != [] && b != []
    requires OutputName(stem, Some(a)) == OutputName(stem, Some(b))
    ensures a == b
  {
    OutputNameForm(stem, Some(a));
    OutputNameForm(stem, Some(b));
    var na, nb := OutputName(stem, Some(a)), OutputName(stem, Some(b));
    assert |a| == |b|;
    assert a == na[|stem| + 1..|na| - 4];
    assert b == nb[|stem| + 1..|nb| - 4];
  }

  /** `"patch{:02d}".format(n)`. */
  function PatchSuffix(n: nat): (s: string)
  {
    "patch" + ZeroPadded(n, 2)
  }

  /** A patch suffix is "patch" followed by at least two digits that read back as the patch number. */
  lemma PatchSuffixReadsBack(n: nat)
    ensures var s := PatchSuffix(n);
      |s| >= 7 && s[..5] == "patch" && IsDigits(s[5..]) && Parse(s[5..]) == n
  {
    var digits := ZeroPadded(n, 2);
    assert PatchSuffix(n)[5..] == digits;
  }

  /** The first patch of an image is "patch01". */
  lemma FirstPatchSuffix()
    ensures PatchSuffix(1) == "patch01"
  {
    ZeroPaddedExamples();
  }

  /** Different patch numbers write to different files. */
  lemma PatchNamesDistinct(stem: string, a: nat, b: nat)
    requires a != b
    ensures OutputName(stem, Some(PatchSuffix(a))) != OutputName(stem, Some(PatchSuffix(b)))
  {
    if OutputName(stem, Some(PatchSuffix(a))) == OutputName(stem, Some(PatchSuffix(b))) {
      OutputNameInjective(stem, PatchSuffix(a), PatchSuffix(b));
      PatchSuffixReadsBack(a);
      PatchSuffixReadsBack(b);
    }
  }

  /** No patch file overwrites the binary, overlay or bounding-box image of the same source image. */
  lemma PatchNameNotDebugName(stem: string, n: nat, debug: string)
    requires debug == "binary" || debug == "overlay" || debug == "bbox"
    ensures OutputName(stem, Some(PatchSuffix(n))) != OutputName(stem, Some(debug))
  {
    if OutputName(stem, Some(PatchSuffix(n))) == OutputName(stem, Some(debug)) {
      OutputNameInjective(stem, PatchSuffix(n), debug);
      PatchSuffixReadsBack(n);
    }
  }

  // ---------------------------------------------------------------------
  // The patch loop

  /** One written patch: its number, the component it shows, the rows and columns NumPy cuts, and its file. */
  datatype Patch = Patch(number: nat, id: nat, rows: (nat, nat), cols: (nat, nat), path: string)

  /** The patch numbered `number` for component `id` with centroid (cx, cy) in an h by w image. */
  function PatchFor(number: nat, id: nat, centroid: (int, int), h: nat, w: nat, outputDir: string, stem: string): (p: Patch)
  {
    var (cx, cy) := centroid;
    var (c0, c1) := Window(cx, w, PatchSize);
    var (r0, r1) := Window(cy, h, PatchSize);
    Patch(number, id, Bounds(Some(r0), Some(r1), h), Bounds(Some(c0), Some(c1), w),
          OutputPath(outputDir, stem, Some(PatchSuffix(number))))
  }

  /**
   * With an image at least as large as the patch on both axes, a patch is
   * exactly 224 by 224 pixels and lies inside the image.
   */
  lemma PatchFits(number: nat, id: nat, centroid: (int, int), h: nat, w: nat, outputDir: string, stem: string)
    requires h >= PatchSize && w >= PatchSize
    ensures var p := PatchFor(number, id, centroid, h, w, outputDir, stem);
      && p.rows.1 - p.rows.0 == PatchSize && p.rows.1 <= h
      && p.cols.1 - p.cols.0 == PatchSize && p.cols.1 <= w
  {
    var (cx, cy) := centroid;
    var (c0, c1) := Window(cx, w, PatchSize);
    var (r0, r1) := Window(cy, h, PatchSize);
    InRangeSlice(r0, r1, h);
    InRangeSlice(c0, c1, w);
  }

  /** The labels in `[1, n)` that are not skipped, in increasing order. */
  function Kept(n: nat, skipped: set<int>): (ks: seq<nat>)
  {
    if n <= 1 then []
    else Kept(n - 1, skipped) + (if n - 1 in skipped then [] else [n - 1])
  }

  /** A label is kept exactly when it is a foreground label below n that is not skipped. */
  lemma {:induction false} KeptExact(n: nat, skipped: set<int>, l: int)
    ensures l in Kept(n, skipped) <==> 1 <= l < n && l !in skipped
  {
    if n > 1 {
      KeptExact(n - 1, skipped, l);
    }
  }

  /** The kept labels come in strictly increasing order, and all lie in `[1, n)`. */
  lemma {:induction false} KeptIncreasing(n: nat, skipped: set<int>)
    ensures forall a, b :: 0 <= a < b < |Kept(n, skipped)| ==> Kept(n, skipped)[a] < Kept(n, skipped)[b]
    ensures forall a :: 0 <= a < |Kept(n, skipped)| ==> 1 <= Kept(n, skipped)[a] < n
  {
    if n > 1 {
      KeptIncreasing(n - 1, skipped);
    }
  }

  /** The set of kept labels. */
  function KeptSet(n: nat, skipped: set<int>): (s: set<int>)
  {
    set l | 1 <= l < n && l !in skipped
  }

  /** The loop writes one patch per label of `[1, n)` that is not skipped. */
  lemma {:induction false} KeptCount(n: nat, skipped: set<int>)
    ensures |Kept(n, skipped)| == |KeptSet(n, skipped)|
  {
    if n > 1 {
      KeptCount(n - 1, skipped);
      KeptExact(n - 1, skipped, n - 1);
      if n - 1 in skipped {
        assert KeptSet(n, skipped) == KeptSet(n - 1, skipped);
      } else {
        assert KeptSet(n, skipped) == KeptSet(n - 1, skipped) + {n - 1};
      }
    } else {
      assert KeptSet(n, skipped) == {};
    }
  }

  /**
   * For a consistent labelling the skipped labels are exactly the components
   * with fewer than 1024 pixels, so the kept ones are those with at least 1024.
   */
  lemma KeptAreLargeComponents(c: Components, mask: Grid, l: int)
    requires ComponentsOf(c, mask)
    ensures l in Kept(c.count, SmallLabels(c.labels)) <==> 1 <= l < c.count && Count(c.labels, l) >= MinObjectPixels
  {
    KeptExact(c.count, SmallLabels(c.labels), l);
    SmallLabelsExact(c.labels, l);
    if 1 <= l < c.count {
      assert c.areas[l] == Count(c.labels, l);
    }
  }

  /** `ps` are the patches of the labels `ks`, numbered 1, 2, ... in that order. */
  ghost predicate Numbered(ps: seq<Patch>, ks: seq<nat>, objects: Components, h: nat, w: nat, outputDir: string, stem: string) {
    && |ps| == |ks|
    && forall t :: 0 <= t < |ps| ==>
         ks[t] < |objects.centroids| && ps[t] == PatchFor(t + 1, ks[t], objects.centroids[ks[t]], h, w, outputDir, stem)
  }

  /** Cutting the patch of one more label extends the numbered list by one. */
  lemma NumberedAppend(ps: seq<Patch>, ks: seq<nat>, k: nat, objects: Components, h: nat, w: nat, outputDir: string, stem: string)
    requires Numbered(ps, ks, objects, h, w, outputDir, stem) && k < |objects.centroids|
    ensures Numbered(ps + [PatchFor(|ps| + 1, k, objects.centroids[k], h, w, outputDir, stem)], ks + [k],
                     objects, h, w, outputDir, stem)
  {
  }

  /**
   * `for i in range(1, n_labels)`: skip the small labels, number the others
   * 1, 2, ... in increasing label order and cut one patch for each.
   */
  method ExtractPatches(objects: Components, small: set<int>, h: nat, w: nat, outputDir: string, stem: string)
    returns (patches: seq<Patch>)
    requires |objects.centroids| == objects.count
    ensures |patches| == |Kept(objects.count, small)|
    ensures forall t :: 0 <= t < |patches| ==>
      var id := Kept(objects.count, small)[t];
      0 <= id < objects.count && patches[t] == PatchFor(t + 1, id, objects.centroids[id], h, w, outputDir, stem)
  {
    var n := if objects.count == 0 then 1 else objects.count;
    var patchNum := 0;
    patches := [];
    var i := 1;
    while i < n
      invariant 1 <= i <= n
      invariant patchNum == |patches|
      invariant Numbered(patches, Kept(i, small), objects, h, w, outputDir, stem)
    {
      if i !in small {
        NumberedAppend(patches, Kept(i, small), i, objects, h, w, outputDir, stem);
        patchNum := patchNum + 1;
        patches := patches + [PatchFor(patchNum, i, objects.centroids[i], h, w, outputDir, stem)];
      }
      i := i + 1;
    }
  }

  // ---------------------------------------------------------------------
  // One plate image, from the blurred grayscale images to the patches

  /** The object mask after border removal and margin suppression: the input of the second labelling. */
  function CleanedMask(objectBinary: Grid, borderLabels: Grid, borderLabel: int, margin: int): (g: Grid)
  {
    Zeroed(Zeroed(objectBinary, LabelIs(borderLabels, borderLabel)),
           MarginSel(margin, |objectBinary|, Width(objectBinary)))
  }

  /** Border removal and margin suppression keep the shape of the mask. */
  lemma CleanedShape(objectBinary: Grid, borderLabels: Grid, borderLabel: int, margin: int)
    requires IsImage(objectBinary)
    ensures var g := CleanedMask(objectBinary, borderLabels, borderLabel, margin);
      |g| == |objectBinary| && Width(g) == Width(objectBinary) && IsImage(g)
  {
  }

  /** Border removal, then margin suppression, on the object mask in place. */
  method Clean(mask: array2<int>, borderLabels: Grid, borderLabel: int, margin: int)
    requires IsGrid(borderLabels, mask.Length0, mask.Length1)
    modifies mask
    ensures Contents(mask) == CleanedMask(old(Contents(mask)), borderLabels, borderLabel, margin)
  {
    RemoveBorder(mask, borderLabels, borderLabel);
    SuppressMargins(mask, margin);
  }

  /**
   * A pixel of the final object mask is 0 or 255, and it is 255 exactly when
   * it was above the object threshold, was not labelled as the border, lies
   * outside the margins, and belongs to a component of at least 1024 pixels.
   */
  lemma FinalMaskPixel(objectBinary: Grid, borderLabels: Grid, borderLabel: int, margin: int,
                       objects: Components, i: nat, j: nat)
    requires IsImage(objectBinary) && IsBinary(objectBinary)
    requires IsGrid(borderLabels, |objectBinary|, Width(objectBinary))
    requires ComponentsOf(objects, CleanedMask(objectBinary, borderLabels, borderLabel, margin))
    requires i < |objectBinary| && j < Width(objectBinary)
    ensures var final := WithoutSmall(CleanedMask(objectBinary, borderLabels, borderLabel, margin), objects.labels);
      && (final[i][j] == 0 || final[i][j] == Foreground)
      && (final[i][j] == Foreground <==>
            && objectBinary[i][j] == Foreground
            && borderLabels[i][j] != borderLabel
            && !InMargin(i, j, margin, |objectBinary|, Width(objectBinary))
            && Count(objects.labels, objects.labels[i][j]) >= MinObjectPixels)
  {
    var cleaned := CleanedMask(objectBinary, borderLabels, borderLabel, margin);
    assert cleaned[i][j] == if InMargin(i, j, margin, |objectBinary|, Width(objectBinary)) || borderLabels[i][j] == borderLabel
                            then 0 else objectBinary[i][j];
    SmallSelExact(objects.labels, i, j);
  }

  /** The foreground labels with at least 1024 pixels. */
  function LargeComponents(c: Components): (s: set<int>)
  {
    set l | 1 <= l < c.count && Count(c.labels, l) >= MinObjectPixels
  }

  /** The patch count of a plate: the number of foreground components with at least 1024 pixels. */
  lemma PatchCount(objects: Components, mask: Grid)
    requires ComponentsOf(objects, mask)
    ensures |Kept(objects.count, SmallLabels(objects.labels))| == |LargeComponents(objects)|
  {
    var small := SmallLabels(objects.labels);
    KeptCount(objects.count, small);
    forall l | 1 <= l < objects.count
      ensures l !in small <==> Count(objects.labels, l) >= MinObjectPixels
    {
      KeptAreLargeComponents(objects, mask, l);
      KeptExact(objects.count, small, l);
    }
    assert KeptSet(objects.count, small) == LargeComponents(objects);
  }

  /** The results for one plate: the saved object mask and the patches cut from the image. */
  datatype Plate = Plate(mask: array2<int>, patches: seq<Patch>)

  /**
   * The body of the loop over source images, with the two median-blurred
   * grayscale images (kernel 75 and kernel 31) as inputs and
   * `cv.connectedComponentsWithStats` as the parameter `components`.
   */
  method SegmentPlate(borderGray: Grid, objectGray: Grid, borderThreshold: int, objectThreshold: int, margin: int,
                      components: Grid -> Components, outputDir: string, stem: string)
    returns (r: Result<Plate, Error>)
    requires IsImage(borderGray) && IsImage(objectGray)
    requires |objectGray| == |borderGray| && Width(objectGray) == Width(borderGray)
    requires forall g :: IsImage(g) ==> ComponentsOf(components(g), g)
    ensures var border := components(Threshold(borderGray, borderThreshold));
      r.Err? <==> border.count <= 1
    ensures r.Ok? ==>
      var border := components(Threshold(borderGray, borderThreshold));
      BorderLabel(border.areas).Ok? &&
      var cleaned := CleanedMask(Threshold(objectGray, objectThreshold), border.labels,
                                 BorderLabel(border.areas).value, margin);
      var objects := components(cleaned);
      var kept := Kept(objects.count, SmallLabels(objects.labels));
      && fresh(r.value.mask)
      && r.value.mask.Length0 == |objectGray| && r.value.mask.Length1 == Width(objectGray)
      && Contents(r.value.mask) == WithoutSmall(cleaned, objects.labels)
      && |r.value.patches| == |kept|
      && |objects.centroids| == objects.count
      && forall t :: 0 <= t < |kept| ==>
           0 <= kept[t] < objects.count &&
           r.value.patches[t] == PatchFor(t + 1, kept[t], objects.centroids[kept[t]],
                                          |objectGray|, Width(objectGray), outputDir, stem)
  {
    var borderMask := Binary(borderGray, borderThreshold);
    var border := components(Contents(borderMask));
    var borderLabel :- BorderLabel(border.areas);
    var mask := Binary(objectGray, objectThreshold);
    CleanedShape(Contents(mask), border.labels, borderLabel, margin);
    Clean(mask, border.labels, borderLabel, margin);
    var objects := components(Contents(mask));
    var small := RemoveSmallObjects(mask, objects.labels);
    var patches := ExtractPatches(objects, small, mask.Length0, mask.Length1, outputDir, stem);
    r := Ok(Plate(mask, patches));
  }
}
