# Plate segmentation and dataset labelling, modelled in Dafny

This project models two parts of an image-classification pipeline.

- **Preprocessing** (`python/preprocessing/preprocess_data.py`). Each scanned
  plate image is handled in these steps:
  - thresholded twice: the border pass uses the larger blur (kernel 75)
    and the lower threshold (default 70) to find the scanner's metal border;
    the object pass uses kernel 31 and threshold 120 (default) to find the
    objects;
  - the border component (the largest foreground component) is erased;
  - four edge margins are cleared;
  - components with fewer than 1024 pixels are dropped;
  - one 224×224 patch is cut, centred on each remaining component, and
    written as `<stem>-patchNN.png`.
- **Dataset labelling** (`python/nemo/datasets.py`):
  - the class vocabulary is the sorted list of sub-directory names of
    `train/`, each mapped to its position;
  - every image file is labelled by its parent directory's name;
  - each label becomes a one-hot row;
  - one vocabulary is shared by the train, valid and test splits.

Modules:

- `Common`: `Option`, `Result` (with `:-` propagation), `Min`, `Max`.
- `Grids`: images as `Grid = seq<seq<int>>` and as `array2<int>`.
  - `Contents` reads an array as a grid.
  - `Zeroed` is NumPy's `g[sel] = 0`; `ZeroWhere` does it in place.
  - `Count` and `Values` are the counts and labels of `np.unique`.
- `PySlice`: Python's normalisation of step-1 slice bounds: `None`, negative
  indices, clipping, and `-0 == 0`.
- `Mask`:
  - `Binary`, the threshold;
  - `BorderLabel`, the argmax;
  - the three in-place clean-up steps on the object mask: `RemoveBorder`,
    `SuppressMargins`, `RemoveSmallObjects`;
  - `ComponentsOf`, the properties of the connected-component labelling
    that the code relies on.
- `Crop`: the per-axis crop arithmetic.
- `Format`: `"{:02d}".format(n)`.
- `Patches`:
  - `_output_path`;
  - the patch loop `ExtractPatches`;
  - `SegmentPlate`, which runs the whole chain for one source image.
- `Ordering`: Python's `<` on strings and on paths, `sorted`, and the
  uniqueness of a sorted permutation.
- `Datasets`: `labels_for_dir`, `dataset_from_dir`, `to_categorical`,
  `load_datasets`.

The object mask is an `array2<int>` that the methods change in place. The
label maps, the grayscale images and the vocabulary are values.

Connected-component labelling (`cv.connectedComponentsWithStats`) is a
function parameter `components: Grid -> Components`. It is constrained by
`ComponentsOf`:

- label 0 is exactly the background;
- the labels lie in `[0, count)`;
- each area is the pixel count of its label, and is positive for foreground
  labels;
- the integer centroids lie in the image.

Every lemma about the cleaned mask and the patches holds for any labelling
routine with these properties.

Four behaviours of the code are worth knowing when reading the model:

- **Bottom and right margins.** The bottom and right bands stop one pixel
  short of the edge: `[-m:-1]` clears rows `[h - m, h - 1)`, so the last row
  is never cleared, and likewise the last column.
  - `Mask.MarginBands` states the exact bands.
  - With `m = 0` the slice `[-0:-1]` is `[0:-1]`, which clears every row but
    the last (`Mask.MarginZero`).
- **Objects in the margin.** Only margin pixels are zeroed. The inner part
  of a component that straddles the margin survives, and the second
  labelling finds it as a component.
- **Small images.** The code has no size check.
  - `Crop.Window` has no precondition; its size and fit ensures are stated
    for an axis of at least the patch size (`dim >= p`).
  - `Patches.PatchFits` requires the image to be at least 224 pixels on
    both axes.
  - Below that size, `Patches.PatchFor` does what the code does. A negative
    slice start counts from the end of the axis, as Python slicing does; it
    is not clipped to 0. For example, with a height of 200 and a centroid
    row of 150, the row slice is `slice(-24, 200)`, which is the bottom 24
    rows.
- **Empty splits.** Each split is shuffled with its own size as the buffer
  size, and `tf.data` refuses a buffer of zero. A split without images
  therefore stops `load_datasets` at that split's shuffle
  (`Datasets.Shuffle`, `Datasets.EmptyTrainSplitFails`).

## Model

| member | source | states |
|---|---|---|
| Grids.Zeroed | python/preprocessing/preprocess_data.py:116 | Masked assignment `g[sel] = 0`: same shape; a selected pixel becomes 0 and every other pixel keeps its value |
| Grids.ZeroedIdempotent | python/preprocessing/preprocess_data.py:131 | Zeroing the same selection twice equals zeroing it once |
| Grids.ZeroWhere | python/preprocessing/preprocess_data.py:116 | In-place `a[sel] = 0`: the new array contents are `Zeroed` of the old ones |
| Grids.Values | python/preprocessing/preprocess_data.py:130 | The set of labels `np.unique` returns: every pixel value is in it, and everything in it is some pixel's value |
| Grids.Count | python/preprocessing/preprocess_data.py:130 | The per-value pixel counts of `np.unique`; `Grids.CountPositive` states that a value is counted exactly when it occurs |
| Grids.CountPositive | python/preprocessing/preprocess_data.py:130 | A value has a positive `np.unique` count exactly when it occurs in the grid |
| PySlice.NormIndex | python/preprocessing/preprocess_data.py:121 | A slice index is normalised into `[0, len]`: kept when in range, `len` added when negative, clipped otherwise |
| PySlice.Bounds | python/preprocessing/preprocess_data.py:166 | Slice bounds lie in `[0, len]`; an omitted start is 0 and an omitted stop is `len` |
| PySlice.HeadSlice | python/preprocessing/preprocess_data.py:120 | For `m >= 0`, `[:m]` covers exactly the indices below `m` |
| PySlice.TailSlice | python/preprocessing/preprocess_data.py:121 | For `m >= 1`, `[-m:-1]` covers exactly `len - m <= k < len - 1`, and never the last index |
| PySlice.TailSliceZero | python/preprocessing/preprocess_data.py:121 | `[-0:-1]` covers every index but the last |
| PySlice.InRangeSlice | python/preprocessing/preprocess_data.py:175 | Slice bounds already within `[0, len]` are taken unchanged |
| Mask.ComponentsOf | python/preprocessing/preprocess_data.py:106-127 | What the model assumes of `cv.connectedComponentsWithStats`: label 0 is exactly the background, the labels lie in `[0, count)`, each area is its label's pixel count and is positive for foreground labels, and the foreground centroids lie in the image |
| Mask.ThresholdPixel | python/preprocessing/preprocess_data.py:54 | A thresholded pixel is 0 or 255, and it is 255 exactly when the value is strictly above the threshold |
| Mask.Threshold | python/preprocessing/preprocess_data.py:49-56 | The thresholded image has the input's shape, holds only 0 and 255, and a pixel is 255 exactly when its gray value is above the threshold |
| Mask.Binary | python/preprocessing/preprocess_data.py:49-56 | `binary` gives a fresh h×w mask array whose contents are `Threshold` of the gray image |
| Mask.ZeroedKeepsBinary | python/preprocessing/preprocess_data.py:116-131 | The clean-up steps only write 0, so the mask stays binary |
| Mask.ArgMax | python/preprocessing/preprocess_data.py:109 | `np.argmax` returns an index of the maximum, and every earlier index holds a strictly smaller value (the first maximum) |
| Mask.BorderLabel | python/preprocessing/preprocess_data.py:109 | Err exactly when there is no foreground label. On Ok, the label is in `[1, n_labels)`, its area is at least every foreground area, and every lower label's area is strictly smaller (ties go to the lowest label) |
| Mask.BorderIsLargestComponent | python/preprocessing/preprocess_data.py:105-109 | For a consistent labelling, the border component has at least as many pixels as every other foreground component |
| Mask.LabelIs | python/preprocessing/preprocess_data.py:116 | The selection `image_cc == border_label` picks exactly the pixels with that label |
| Mask.RemoveBorder | python/preprocessing/preprocess_data.py:116 | Pixels whose border-pass label is the border label become 0; every other pixel of the object mask is unchanged |
| Mask.InMargin | python/preprocessing/preprocess_data.py:120-123 | A pixel is cleared by one of the four slice assignments; `Mask.MarginBands` and `Mask.MarginZero` state which pixels these are |
| Mask.MarginBands | python/preprocessing/preprocess_data.py:120-123 | For `m >= 1` a pixel is cleared exactly when `i < m`, `h-m <= i < h-1`, `j < m` or `w-m <= j < w-1` |
| Mask.MarginKeeps | python/preprocessing/preprocess_data.py:121 | For `m >= 1`, a pixel outside all four bands is not cleared. The last row and the last column count as outside the bottom and right bands, whose slices stop one short of the edge |
| Mask.MarginZero | python/preprocessing/preprocess_data.py:120-123 | With margin 0, every pixel except the one in both the last row and the last column is cleared |
| Mask.SuppressMargins | python/preprocessing/preprocess_data.py:120-123 | After the four slice assignments, the mask is the old mask with exactly the margin pixels zeroed |
| Mask.SmallLabels | python/preprocessing/preprocess_data.py:130 | Every label in `labels[pixel_counts < 1024]` is a foreground label with fewer than 1024 pixels |
| Mask.SmallLabelsExact | python/preprocessing/preprocess_data.py:130 | A label is small exactly when it is a foreground label with 1 to 1023 pixels; label 0 never is |
| Mask.LabelIn | python/preprocessing/preprocess_data.py:131 | `np.isin(image_cc, ids)` selects exactly the pixels whose label is in `ids` |
| Mask.SmallSelExact | python/preprocessing/preprocess_data.py:130-131 | The small-object filter selects a pixel exactly when its label is a foreground label with fewer than 1024 pixels |
| Mask.WithoutSmall | python/preprocessing/preprocess_data.py:131 | The mask with the small components' pixels zeroed; `Mask.SmallSelExact` states which pixels those are and `Mask.SmallFilterIdempotent` that a second pass changes nothing |
| Mask.SmallFilterIdempotent | python/preprocessing/preprocess_data.py:129-131 | Applying the small-object filter twice with the same label map equals applying it once |
| Mask.RemoveSmallObjects | python/preprocessing/preprocess_data.py:129-131 | Returns the small labels and zeroes exactly the mask pixels that carry one of them |
| Crop.Clamp | python/preprocessing/preprocess_data.py:162 | The result lies in `[lo, hi]`: unchanged inside, `lo` below it, `hi` above it |
| Crop.AdjustCenter | python/preprocessing/preprocess_data.py:160-165 | When the axis holds a patch, the two-step adjust-then-clamp equals clamping the centre into `[p/2, dim - p/2]`; a centre whose window fits is unchanged |
| Crop.FirstStep | python/preprocessing/preprocess_data.py:160-164 | The first step of the adjustment moves a centre whose window overflows the low edge further down, and one that overflows the high edge further up. A centre whose window fits stays put |
| Crop.SecondStepClamps | python/preprocessing/preprocess_data.py:160-165 | When the axis holds a patch, the adjusted centre is the first step's centre clamped into `[p/2, dim - p/2]`, on all three branches |
| Crop.Window | python/preprocessing/preprocess_data.py:166 | The window always has length `2*(p/2)`; when `dim >= p` it lies inside `[0, dim]`, and for an even `p` its length is exactly `p` |
| Crop.WindowIsNearest | python/preprocessing/preprocess_data.py:159-175 | Of all windows of side `p` that fit in the axis, the adjusted centre is nearest to the centroid |
| Format.Decimal | python/preprocessing/preprocess_data.py:177 | `str(n)` is non-empty and all digits, with no leading zero unless it is "0" |
| Format.ParseDecimal | python/preprocessing/preprocess_data.py:177 | Reading back the decimal form of `n` gives `n` |
| Format.ParseLeadingZeros | python/preprocessing/preprocess_data.py:177 | Leading zeros do not change the value read back |
| Format.Zeros | python/preprocessing/preprocess_data.py:177 | The padding is `z` zero digits |
| Format.ZerosParse | python/preprocessing/preprocess_data.py:177 | A string of zeros reads back as 0 |
| Format.ZeroPadded | python/preprocessing/preprocess_data.py:177 | `{:02d}`-style padding gives digits only, of length `max(width, len(str(n)))`, that read back as `n` |
| Format.ZeroPaddedInjective | python/preprocessing/preprocess_data.py:177 | Different numbers never pad to the same text |
| Format.ZeroPaddedExamples | python/preprocessing/preprocess_data.py:177 | 1 pads to "01", 12 to "12", and 100 to "100" |
| Patches.OutputName | python/preprocessing/preprocess_data.py:27-32 | The file name `_output_path` builds; `Patches.OutputNameForm` states its two forms and `Patches.OutputNameInjective` that different suffixes give different names |
| Patches.OutputPath | python/preprocessing/preprocess_data.py:32 | `output_dir / name` with the name of `Patches.OutputName` |
| Patches.OutputNameForm | python/preprocessing/preprocess_data.py:27-32 | With no suffix or an empty one the name is `stem.png`; otherwise it is `stem-suffix.png` |
| Patches.OutputNameInjective | python/preprocessing/preprocess_data.py:27-32 | Two different non-empty suffixes never give the same output name |
| Patches.PatchSuffix | python/preprocessing/preprocess_data.py:177 | `"patch{:02d}".format(n)`; `Patches.PatchSuffixReadsBack` states that it is "patch" followed by digits that read back as `n` |
| Patches.PatchSuffixReadsBack | python/preprocessing/preprocess_data.py:177 | A patch suffix is "patch" followed by at least two digits that read back as the patch number |
| Patches.FirstPatchSuffix | python/preprocessing/preprocess_data.py:177 | Patch 1 is named with suffix "patch01" |
| Patches.PatchNamesDistinct | python/preprocessing/preprocess_data.py:177 | Different patch numbers write different files |
| Patches.PatchNameNotDebugName | python/preprocessing/preprocess_data.py:134-179 | No patch file has the name of the binary, overlay or bbox image of the same source image |
| Patches.PatchFor | python/preprocessing/preprocess_data.py:157-177 | One patch: its number, its component, the row and column ranges NumPy cuts for the adjusted centroid, and its file path; `Patches.PatchFits` states its size and position |
| Patches.PatchFits | python/preprocessing/preprocess_data.py:157-177 | When the image is at least 224 pixels on both axes, every patch is exactly 224×224 and lies inside the image |
| Patches.Kept | python/preprocessing/preprocess_data.py:145-151 | The labels the loop keeps, in visiting order; `Patches.KeptExact`, `Patches.KeptIncreasing` and `Patches.KeptCount` state which they are, their order and their number |
| Patches.KeptExact | python/preprocessing/preprocess_data.py:146-149 | The loop keeps a label exactly when it is in `[1, n_labels)` and not small |
| Patches.KeptIncreasing | python/preprocessing/preprocess_data.py:146-151 | The kept labels are visited in strictly increasing order and lie in `[1, n_labels)` |
| Patches.KeptCount | python/preprocessing/preprocess_data.py:145-151 | The number of patches equals the number of kept labels |
| Patches.KeptAreLargeComponents | python/preprocessing/preprocess_data.py:130-149 | For a consistent labelling, a kept label is exactly a foreground component with at least 1024 pixels |
| Patches.Numbered | python/preprocessing/preprocess_data.py:145-177 | The loop invariant: the t-th patch is the patch numbered t+1 of the t-th kept label |
| Patches.NumberedAppend | python/preprocessing/preprocess_data.py:151-177 | Cutting the patch of one more kept label, numbered one past the last, keeps the invariant |
| Patches.ExtractPatches | python/preprocessing/preprocess_data.py:145-177 | One patch per kept label, in label order. The t-th patch has number t+1 and is cut around its own component's centroid, with the crop and file name of that number |
| Patches.CleanedShape | python/preprocessing/preprocess_data.py:116-123 | Border removal and margin suppression keep the mask's shape |
| Patches.CleanedMask | python/preprocessing/preprocess_data.py:116-123 | The object mask after border removal and margin suppression; `Patches.CleanedShape` states that it keeps the shape and `Patches.FinalMaskPixel` what each pixel becomes |
| Patches.Clean | python/preprocessing/preprocess_data.py:116-123 | The mask after border removal then margin suppression is `CleanedMask` of the old mask |
| Patches.FinalMaskPixel | python/preprocessing/preprocess_data.py:113-131 | A final mask pixel is 0 or 255. It is 255 exactly when it passed the object threshold, was not labelled border, lies outside the margins and belongs to a component of at least 1024 pixels |
| Patches.PatchCount | python/preprocessing/preprocess_data.py:145-151 | The patch count of a plate is the number of foreground components with at least 1024 pixels |
| Patches.SegmentPlate | python/preprocessing/preprocess_data.py:99-177 | Fails exactly when the border mask has no foreground component. Otherwise the saved mask is the thresholded, border-removed, margin-cleared, small-filtered mask, with one patch per large component as `ExtractPatches` states |
| Ordering.LexLess | python/nemo/datasets.py:17 | Python's `<` on sequences: the first differing position decides, and a proper prefix is smaller; `Ordering.LexIrreflexive`, `Ordering.LexTransitive` and `Ordering.LexConnected` state that it is a strict total order |
| Ordering.StringLess | python/nemo/datasets.py:17 | Python's `<` on `str`, by code point; `Ordering.StringOrder` states that it is a strict total order |
| Ordering.LexIrreflexive | python/nemo/datasets.py:17 | No sequence is lexicographically smaller than itself |
| Ordering.LexTransitive | python/nemo/datasets.py:17 | Lexicographic order over a strict total order is transitive |
| Ordering.LexConnected | python/nemo/datasets.py:17 | Of two different sequences, one is lexicographically smaller |
| Ordering.StringOrder | python/nemo/datasets.py:17 | Python's `<` on `str` is a strict total order |
| Ordering.PartsOrder | python/nemo/datasets.py:33 | Python's `<` on paths, as tuples of parts, is a strict total order |
| Ordering.Insert | python/nemo/datasets.py:17 | Insertion adds exactly the one element (multiset) |
| Ordering.InsertSorted | python/nemo/datasets.py:17 | Inserting into a sorted sequence keeps it sorted |
| Ordering.InsertKeepsOrder | python/nemo/datasets.py:17 | Inserting into a sorted sequence under a strict total order keeps it sorted |
| Ordering.Sort | python/nemo/datasets.py:33 | `sorted` returns a permutation of its input, sorted when the order is a strict total order |
| Ordering.SortedSameHead | python/nemo/datasets.py:33 | Two sorted permutations of the same values start with the same element |
| Ordering.SortedTail | python/nemo/datasets.py:33 | Dropping the head keeps a sequence sorted and removes exactly one copy of the head |
| Ordering.SortedUnique | python/nemo/datasets.py:33 | Two sorted permutations of the same values are equal, so the result does not depend on the input order |
| Ordering.DistinctOnce | python/nemo/datasets.py:18 | In a sequence without repeats, each value occurs at most once |
| Ordering.PermutationDistinct | python/nemo/datasets.py:17 | A permutation of a sequence without repeats has no repeats |
| Ordering.SortedDistinctIncreasing | python/nemo/datasets.py:17-18 | A sorted sequence without repeats is strictly increasing: comparing elements is comparing positions |
| Datasets.DirNames | python/nemo/datasets.py:17 | A name is listed exactly when a child of that name is a directory; unique child names give unique directory names |
| Datasets.ClassNames | python/nemo/datasets.py:17 | The class list is a permutation of the directory names without repeats; `Datasets.ClassNamesSorted` states that it is sorted |
| Datasets.ClassNamesSorted | python/nemo/datasets.py:17 | The class names are in name order |
| Datasets.ClassNamesIncreasing | python/nemo/datasets.py:17 | In the class list, name order is position order |
| Datasets.DistinctCard | python/nemo/datasets.py:18 | A sequence without repeats has as many distinct values as elements |
| Datasets.Enumerate | python/nemo/datasets.py:18 | `dict(enumerate)` maps the i-th name to i. Its keys are the names and its values are exactly `0..n-1`, without repeats |
| Datasets.LabelsForDir | python/nemo/datasets.py:16-19 | The keys are exactly the sub-directory names, and non-directories never enter. There is one index per directory, the indices are exactly `0..n-1`, and no two names share an index |
| Datasets.LabelsAreSortedPositions | python/nemo/datasets.py:17-18 | Each class's index is its position in sorted order |
| Datasets.LabelsFollowNameOrder | python/nemo/datasets.py:17-18 | For two classes, `a < b` as strings exactly when index(a) < index(b) |
| Datasets.ParentName | python/nemo/datasets.py:36 | `file.parent.name`: the part before the last one, or "" when there is none; `Datasets.LookupLabels` looks this name up |
| Datasets.PathLess | python/nemo/datasets.py:33 | Python's `<` on paths, as tuples of parts; `Datasets.PathOrder` states that it is a strict total order |
| Datasets.PathOrder | python/nemo/datasets.py:33 | Python's `<` on paths is a strict total order |
| Datasets.SortedFiles | python/nemo/datasets.py:33 | The files are a permutation of those found, in path order |
| Datasets.SortedFilesUnique | python/nemo/datasets.py:33 | Any path-sorted permutation of the found files is the `sorted` result |
| Datasets.LookupLabels | python/nemo/datasets.py:36 | Ok exactly when every parent name is a key; then there is one label per file, `label_lookup[parent name]`, in file order. Otherwise a `KeyError` for the first file whose parent is missing |
| Datasets.OneHot | python/nemo/datasets.py:37 | A row of `n` entries with 1 at index `k` and 0 everywhere else |
| Datasets.HotIndex | python/nemo/datasets.py:37 | The index of the first nonzero entry (the inverse of `OneHot`) |
| Datasets.OneHotRoundTrip | python/nemo/datasets.py:37 | Decoding the one-hot row of `k` gives back `k` |
| Datasets.MaxLabel | python/nemo/datasets.py:37 | The largest label, which `to_categorical` uses when no class count is given |
| Datasets.Columns | python/nemo/datasets.py:37 | The number of columns is `num_classes` when non-zero. Otherwise it is `max(labels) + 1`, with an error when there are no labels or the value is negative |
| Datasets.Column | python/nemo/datasets.py:37 | A label that addresses a column (a negative label counting from the end) names a column `< columns`, congruent to the label |
| Datasets.OneHotRows | python/nemo/datasets.py:37 | Ok exactly when every label addresses a column; then row i is one-hot at label i's column. Otherwise the error names a label that addresses none |
| Datasets.ToCategorical | python/nemo/datasets.py:37 | With a class count, Ok exactly when every label addresses a column, and then one one-hot row of that length per label. With no class count and no labels, an error |
| Datasets.CategoricalOfClassIndices | python/nemo/datasets.py:37 | Labels in `[0, n)` become one row each of length `n`, with a single 1 at the label, which decodes back to the label |
| Datasets.CategoricalOfNothing | python/nemo/datasets.py:37 | No labels and no class count is an error |
| Datasets.FilesOf | python/nemo/datasets.py:40-44 | The files of a dataset, in dataset order |
| Datasets.DatasetFromDir | python/nemo/datasets.py:32-46 | On success the count and the number of elements equal the number of files found. The files are the found ones, in path order; with `return_files` the same files are returned in the same order |
| Datasets.MissingParentFails | python/nemo/datasets.py:36 | A file whose parent name is not a key makes `dataset_from_dir` fail with the `KeyError` of the first such file in path order |
| Datasets.DatasetFromDirSucceeds | python/nemo/datasets.py:33-37 | With a lookup of class indices, it succeeds exactly when every file's parent is a class and there is at least one class |
| Datasets.DatasetRows | python/nemo/datasets.py:36-41 | Each element pairs its file with the one-hot row of `label_lookup[parent name]`, of length `len(label_lookup)` |
| Datasets.Shuffle | python/nemo/datasets.py:60 | `shuffle(count)` with the split's size as the buffer: refused with `EmptyShuffleBuffer` exactly when the split has no files, otherwise the split unchanged |
| Datasets.LoadDatasets | python/nemo/datasets.py:49-89 | On success the metadata holds the vocabulary of `train/`, and each count equals its split's number of files and of elements |
| Datasets.LoadDatasetsSucceeds | python/nemo/datasets.py:56-78 | Loading succeeds exactly when `train/` has a sub-directory, each of the three splits has at least one file, and every file of every split lies under a directory with a train class name |
| Datasets.EmptyTrainSplitFails | python/nemo/datasets.py:59-60 | A `train/` with one class directory and no images fails at the train shuffle, before `valid/` is read |
| Datasets.SharedVocabulary | python/nemo/datasets.py:56-87 | All three splits are labelled with one-hot rows of the one `train/` vocabulary that the metadata holds |
| Datasets.SplitLabelled | python/nemo/datasets.py:59-78 | A split built with the vocabulary is labelled by it |
| Datasets.LoadDatasetsFirstError | python/nemo/datasets.py:59-78 | The splits fail in the order train, valid, test. Within a split a missing class comes first, as the first missing file in path order; a split without files then fails at its shuffle. A later split is reached only when the earlier ones are built and non-empty |

## Left out

- File I/O is not modelled: `imread`, `imwrite`, `rmtree`, `mkdir`, the `rglob` searches, docopt parsing and `print`.
  - The found files and directory listings are inputs.
  - The output file names are strings.
- The loop over source images (preprocess_data.py:95) is not modelled. `Patches.SegmentPlate` is one iteration of its body, and the file stem is an input.
- Median blur and BGR-to-gray conversion are not modelled. The blurred grayscale images are inputs.
- Pixels are unbounded integers, not `uint8`. The threshold comparison is unaffected.
- In `cv.connectedComponentsWithStats`, the labelling algorithm itself is not modelled. It is a parameter whose output satisfies `ComponentsOf`. Left out with it:
  - the statistics other than the area;
  - the float-to-int cast of the centroids, which are integer inputs.
- The overlay blend, the bounding-box drawing (`_add_bbox`) and the image data of the patches are not modelled: they are floating point and OpenCV drawing. Their file names appear only in `Patches.PatchNameNotDebugName`.
- `_output_path` reads the global `output_dir`; here it is the parameter `outputDir`. The path is joined with "/"; `pathlib` normalisation is not modelled.
- Python's `sorted` is Timsort, modelled by `Ordering.Sort`, an insertion sort. For a strict total order the result is the same (`Ordering.SortedUnique`).
- Paths are compared as tuples of their parts, which is how `pathlib` orders paths under a common root such as the split directory.
  - `Datasets.ParentName` treats a root part like any other part. Python names the root parent "".
- `to_categorical` follows the `tf.keras` 2 code:
  - `num_classes = 0` falls back to `max(labels) + 1`;
  - negative labels index from the end, as NumPy does;
  - NumPy's exception types become the constructors of `Datasets.Error`;
  - the float32 rows are integers 0 and 1.
- The `tf.data` pipeline is not modelled beyond the shuffle's refusal of a zero buffer size (`Datasets.Shuffle`): the order the shuffle draws, the parallel `map` of `load_and_preprocess_image` and `augment_image`, `batch`, `prefetch`, AUTOTUNE. Also left out:
  - `nemo/images.py`, which is not part of this model;
  - the `str(file)` conversion: files stay as their path parts.
- `save_labels` and `read_labels` are not modelled: they are only YAML serialisation.
- `python/train_model.py` is not part of this model. It is model assembly and training, with no logic of its own.
- An "image too small" error is not modelled, because the code raises none. For the size results:
  - `Crop.Window` states its size and fit only for `dim >= p`;
  - `Patches.PatchFits` requires `h, w >= 224`.
