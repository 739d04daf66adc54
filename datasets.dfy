/**
 * Label vocabulary and per-file labels of python/nemo/datasets.py. Directory
 * listings and recursive file searches are inputs; the `tf.data` pipeline
 * built on top of the (file, one-hot label) pairs is not modelled.
 */
module Datasets {
  import opened Common
  import opened Ordering

  datatype Error =
    /** `label_lookup[name]` for a parent directory name that is not a class. */
    | KeyError(key: string)
    /** A class index that does not address a column of the `to_categorical` matrix. */
    | ClassIndexOutOfRange(index: int)
    /** `to_categorical` without a class count takes the maximum label, which fails on no labels. */
    | MaximumOfNoLabels
    /** `to_categorical` sized from the labels asked for a negative number of columns. */
    | NegativeColumns(columns: int)
    /** `dataset.shuffle(count)` for a split without files: a shuffle buffer must hold at least one element. */
    | EmptyShuffleBuffer

  // ---------------------------------------------------------------------
  // `labels_for_dir`

  /** One entry of a directory listing. */
  datatype Child = Child(name: string, isDir: bool)

  /** Names in one directory are unique. */
  predicate DistinctNames(children: seq<Child>) {
    forall i, j :: 0 <= i < j < |children| ==> children[i].name != children[j].name
  }

  /** The names of the sub-directories, in listing order (`child.is_dir()`). */
  function DirNames(children: seq<Child>): (names: seq<string>)
    ensures forall n :: n in names <==> Child(n, true) in children
    ensures DistinctNames(children) ==> Distinct(names)
  {
    if children == [] then []
    else
      var rest := DirNames(children[1..]);
      assert forall n :: Child(n, true) in children <==> Child(n, true) == children[0] || Child(n, true) in children[1..];
      if children[0].isDir then
        assert DistinctNames(children) ==> children[0].name !in rest;
        [children[0].name] + rest
      else rest
  }

  /** The class names in sorted order: the vocabulary as a list. */
  function ClassNames(children: seq<Child>): (names: seq<string>)
    requires DistinctNames(children)
    ensures multiset(names) == multiset(DirNames(children))
    ensures Distinct(names)
  {
    StringOrder();
    var names := Sort(DirNames(children), StringLess);
    PermutationDistinct(DirNames(children), names);
    names
  }

  /** The class names are in name order. */
  lemma ClassNamesSorted(children: seq<Child>)
    requires DistinctNames(children)
    ensures SortedBy(ClassNames(children), StringLess)
  {
    StringOrder();
  }

  /** Sorted class names without repeats are strictly increasing in name order. */
  lemma ClassNamesIncreasing(children: seq<Child>, i: int, j: int)
    requires DistinctNames(children)
    requires 0 <= i < |ClassNames(children)| && 0 <= j < |ClassNames(children)|
    ensures StringLess(ClassNames(children)[i], ClassNames(children)[j]) <==> i < j
  {
    StringOrder();
    ClassNamesSorted(children);
    SortedDistinctIncreasing(ClassNames(children), StringLess);
  }

  /** Values of a sequence without repeats, counted. */
  lemma {:induction false} DistinctCard<T>(s: seq<T>)
    requires Distinct(s)
    ensures |set x | x in s| == |s|
  {
    if s != [] {
      var rest := s[1..];
      DistinctCard(rest);
      assert (set x | x in s) == {s[0]} + (set x | x in rest);
      assert s[0] !in rest;
    }
  }

  /** `dict((name, index) for index, name in enumerate(names))` for names without repeats. */
  function Enumerate(names: seq<string>): (m: map<string, nat>)
    requires Distinct(names)
    ensures forall n :: n in m <==> n in names
    ensures forall i :: 0 <= i < |names| ==> m[names[i]] == i
    ensures |m| == |names|
    ensures forall n :: n in m ==> m[n] < |m|
    ensures forall k :: 0 <= k < |m| ==> k in m.Values
    ensures forall a, b :: a in m && b in m && a != b ==> m[a] != m[b]
  {
    var m := map i | 0 <= i < |names| :: names[i] := i;
    assert m.Keys == set x | x in names;
    DistinctCard(names);
    assert forall n :: n in m ==> names[m[n]] == n;
    assert forall k :: 0 <= k < |m| ==> k in m.Values by {
      forall k | 0 <= k < |m| ensures k in m.Values {
        assert names[k] in m && m[names[k]] == k;
      }
    }
    m
  }

  /**
   * `labels_for_dir`: each sub-directory name mapped to its position in
   * sorted order. The indices are exactly 0..n-1, where n is the number of
   * sub-directories, and files that are not directories never enter the
   * vocabulary.
   */
  function LabelsForDir(children: seq<Child>): (labels: map<string, nat>)
    requires DistinctNames(children)
    ensures forall n :: n in labels <==> Child(n, true) in children
    ensures |labels| == |DirNames(children)|
    ensures forall n :: n in labels ==> labels[n] < |labels|
    ensures forall k :: 0 <= k < |labels| ==> k in labels.Values
    ensures forall a, b :: a in labels && b in labels && a != b ==> labels[a] != labels[b]
  {
    var names := ClassNames(children);
    assert |names| == |DirNames(children)| by {
      assert |multiset(names)| == |multiset(DirNames(children))|;
    }
    assert forall n :: n in names <==> n in multiset(DirNames(children));
    Enumerate(names)
  }

  /** The vocabulary is `ClassNames` enumerated. */
  lemma LabelsAreSortedPositions(children: seq<Child>, i: int)
    requires DistinctNames(children)
    requires 0 <= i < |ClassNames(children)|
    ensures ClassNames(children)[i] in LabelsForDir(children)
    ensures LabelsForDir(children)[ClassNames(children)[i]] == i
  {
  }

  /** Vocabulary order follows name order: a name sorting before another gets the smaller index. */
  lemma LabelsFollowNameOrder(children: seq<Child>, a: string, b: string)
    requires DistinctNames(children)
    requires a in LabelsForDir(children) && b in LabelsForDir(children)
    ensures StringLess(a, b) <==> LabelsForDir(children)[a] < LabelsForDir(children)[b]
  {
    var names := ClassNames(children);
    var labels := LabelsForDir(children);
    assert a in multiset(names) && b in multiset(names);
    var i :| 0 <= i < |names| && names[i] == a;
    var j :| 0 <= j < |names| && names[j] == b;
    LabelsAreSortedPositions(children, i);
    LabelsAreSortedPositions(children, j);
    ClassNamesIncreasing(children, i, j);
  }

  // ---------------------------------------------------------------------
  // `dataset_from_dir`

  /** A file found below a split directory, as the parts of its path. */
  datatype File = File(parts: seq<string>)

  /** `file.parent.name`: the part before the last one, or "" when there is none. */
  function ParentName(f: File): string {
    if |f.parts| < 2 then "" else f.parts[|f.parts| - 2]
  }

  /** Python's `<` on paths. */
  predicate PathLess(a: File, b: File) {
    PartsLess(a.parts, b.parts)
  }

  lemma PathOrder()
    ensures StrictTotalOrder(PathLess)
  {
    PartsOrder();
    forall a: File, b: File | a != b
      ensures PathLess(a, b) || PathLess(b, a)
    {
      assert a.parts != b.parts;
    }
  }

  /** `sorted(source_dir.rglob("*.png"))`: the files found, in path order. */
  function SortedFiles(found: seq<File>): (files: seq<File>)
    ensures multiset(files) == multiset(found)
    ensures SortedBy(files, PathLess)
  {
    PathOrder();
    Sort(found, PathLess)
  }

  /** The order does not depend on the order the search produced the files in. */
  lemma SortedFilesUnique(found: seq<File>, files: seq<File>)
    requires multiset(files) == multiset(found) && SortedBy(files, PathLess)
    ensures files == SortedFiles(found)
  {
    PathOrder();
    SortedUnique(files, SortedFiles(found), PathLess);
  }

  /**
   * `[label_lookup[file.parent.name] for file in files]`: one label per file,
   * in file order; the first file whose parent name is not a key raises.
   */
  function LookupLabels(files: seq<File>, lookup: map<string, int>): (r: Result<seq<int>, Error>)
    ensures r.Ok? <==> forall i :: 0 <= i < |files| ==> ParentName(files[i]) in lookup
    ensures r.Ok? ==> |r.value| == |files|
    ensures r.Ok? ==> forall i :: 0 <= i < |files| ==> r.value[i] == lookup[ParentName(files[i])]
    ensures r.Err? ==> exists k :: 0 <= k < |files| && FirstMissing(files, lookup, k) && r.error == KeyError(ParentName(files[k]))
  {
    if files == [] then Ok([])
    else if ParentName(files[0]) !in lookup then
      assert FirstMissing(files, lookup, 0);
      Err(KeyError(ParentName(files[0])))
    else
      var rest := LookupLabels(files[1..], lookup);
      if rest.Err? then
        assert exists k :: 0 <= k < |files| && FirstMissing(files, lookup, k) && rest.error == KeyError(ParentName(files[k])) by {
          var k :| 0 <= k < |files[1..]| && FirstMissing(files[1..], lookup, k) && rest.error == KeyError(ParentName(files[1..][k]));
          assert FirstMissing(files, lookup, k + 1);
        }
        Err(rest.error)
      else
        assert forall i :: 1 <= i < |files| ==> files[i] == files[1..][i - 1];
        Ok([lookup[ParentName(files[0])]] + rest.value)
  }

  /** Index k holds the first file whose parent name is not a key. */
  ghost predicate FirstMissing(files: seq<File>, lookup: map<string, int>, k: nat)
    requires k < |files|
  {
    && ParentName(files[k]) !in lookup
    && forall i :: 0 <= i < k ==> ParentName(files[i]) in lookup
  }

  // ---------------------------------------------------------------------
  // `to_categorical`

  /** A row of `columns` entries that is 1 at index `k` and 0 everywhere else. */
  ghost predicate IsOneHot(row: seq<int>, k: int, columns: nat) {
    && |row| == columns
    && forall j :: 0 <= j < columns ==> row[j] == (if j == k then 1 else 0)
  }

  function OneHot(k: nat, columns: nat): (row: seq<int>)
    requires k < columns
    ensures IsOneHot(row, k, columns)
  {
    seq(k, _ => 0) + [1] + seq(columns - k - 1, _ => 0)
  }

  /** The position of the first nonzero entry, or the length of the row when all are 0. */
  function HotIndex(row: seq<int>): (k: nat)
    ensures k <= |row|
    ensures forall j :: 0 <= j < k ==> row[j] == 0
    ensures k < |row| ==> row[k] != 0
  {
    if row == [] then 0
    else if row[0] != 0 then 0
    else 1 + HotIndex(row[1..])
  }

  /** A one-hot row gives back the index it was made from. */
  lemma OneHotRoundTrip(k: nat, columns: nat)
    requires k < columns
    ensures HotIndex(OneHot(k, columns)) == k
  {
    var row := OneHot(k, columns);
    assert row[k] != 0;
  }

  /** Largest element of a non-empty sequence. */
  function MaxLabel(labels: seq<int>): (m: int)
    requires labels != []
    ensures m in labels
    ensures forall i :: 0 <= i < |labels| ==> labels[i] <= m
  {
    if |labels| == 1 then labels[0]
    else Max(labels[0], MaxLabel(labels[1..]))
  }

  /** The number of columns: `num_classes` when it is not 0, otherwise `max(labels) + 1`. */
  function Columns(labels: seq<int>, numClasses: nat): (r: Result<nat, Error>)
    ensures numClasses > 0 ==> r == Ok(numClasses)
    ensures numClasses == 0 && labels == [] ==> r == Err(MaximumOfNoLabels)
    ensures numClasses == 0 && labels != [] ==>
      if MaxLabel(labels) + 1 >= 0 then r == Ok(MaxLabel(labels) + 1) else r == Err(NegativeColumns(MaxLabel(labels) + 1))
  {
    if numClasses > 0 then Ok(numClasses)
    else if labels == [] then Err(MaximumOfNoLabels)
    else if MaxLabel(labels) + 1 < 0 then Err(NegativeColumns(MaxLabel(labels) + 1))
    else Ok(MaxLabel(labels) + 1)
  }

  /** A label addresses a column of a row of `columns` entries, counting from the end when negative. */
  predicate Addresses(k: int, columns: nat) {
    0 <= k + columns && k < columns
  }

  /** The column a label addresses. */
  function Column(k: int, columns: nat): (c: nat)
    requires Addresses(k, columns)
    ensures c < columns
    ensures c % columns == k % columns
  {
    if k < 0 then k + columns else k
  }

  /** The rows of the one-hot matrix; the first label that addresses no column raises. */
  function OneHotRows(labels: seq<int>, columns: nat): (r: Result<seq<seq<int>>, Error>)
    ensures r.Ok? <==> forall i :: 0 <= i < |labels| ==> Addresses(labels[i], columns)
    ensures r.Ok? ==> |r.value| == |labels|
    ensures r.Ok? ==> forall i :: 0 <= i < |labels| ==> IsOneHot(r.value[i], Column(labels[i], columns), columns)
    ensures r.Err? ==> exists i :: 0 <= i < |labels| && !Addresses(labels[i], columns) && r.error == ClassIndexOutOfRange(labels[i])
  {
    if labels == [] then Ok([])
    else if !Addresses(labels[0], columns) then Err(ClassIndexOutOfRange(labels[0]))
    else
      var rest := OneHotRows(labels[1..], columns);
      if rest.Err? then
        assert exists i :: 0 <= i < |labels| && !Addresses(labels[i], columns) && rest.error == ClassIndexOutOfRange(labels[i]) by {
          var i :| 0 <= i < |labels[1..]| && !Addresses(labels[1..][i], columns) && rest.error == ClassIndexOutOfRange(labels[1..][i]);
          assert labels[1..][i] == labels[i + 1];
        }
        Err(rest.error)
      else
        assert forall i :: 1 <= i < |labels| ==> labels[i] == labels[1..][i - 1];
        Ok([OneHot(Column(labels[0], columns), columns)] + rest.value)
  }

  /** `keras.utils.to_categorical(labels, num_classes)` on a list of integer labels. */
  function ToCategorical(labels: seq<int>, numClasses: nat): (r: Result<seq<seq<int>>, Error>)
    ensures numClasses > 0 ==> (r.Ok? <==> forall i :: 0 <= i < |labels| ==> Addresses(labels[i], numClasses))
    ensures numClasses > 0 && r.Ok? ==> |r.value| == |labels|
    ensures numClasses > 0 && r.Ok? ==> forall i :: 0 <= i < |labels| ==> IsOneHot(r.value[i], Column(labels[i], numClasses), numClasses)
    ensures numClasses == 0 && labels == [] ==> r == Err(MaximumOfNoLabels)
  {
    var columns :- Columns(labels, numClasses);
    OneHotRows(labels, columns)
  }

  /** With a class count and labels below it, every label becomes the one-hot row of that label. */
  lemma CategoricalOfClassIndices(labels: seq<int>, numClasses: nat)
    requires forall i :: 0 <= i < |labels| ==> 0 <= labels[i] < numClasses
    requires numClasses > 0
    ensures ToCategorical(labels, numClasses).Ok?
    ensures |ToCategorical(labels, numClasses).value| == |labels|
    ensures forall i :: 0 <= i < |labels| ==> IsOneHot(ToCategorical(labels, numClasses).value[i], labels[i], numClasses)
    ensures forall i :: 0 <= i < |labels| ==> HotIndex(ToCategorical(labels, numClasses).value[i]) == labels[i]
  {
    var rows := ToCategorical(labels, numClasses).value;
    forall i | 0 <= i < |labels|
      ensures HotIndex(rows[i]) == labels[i]
    {
      assert rows[i] == OneHot(labels[i], numClasses);
      OneHotRoundTrip(labels[i], numClasses);
    }
  }

  /** Without a class count and without labels there is no maximum to size the rows by. */
  lemma CategoricalOfNothing()
    ensures ToCategorical([], 0) == Err(MaximumOfNoLabels)
  {
  }

  // ---------------------------------------------------------------------
  // `dataset_from_dir` and `load_datasets`

  /** One element of `tf.data.Dataset.from_tensor_slices((files, labels))`. */
  datatype Example = Example(file: File, row: seq<int>)

  /** `(dataset, len(files))`, plus `files` when `return_files` is set. */
  datatype FromDir = FromDir(dataset: seq<Example>, count: nat, files: Option<seq<File>>)

  /** The files of a dataset, in dataset order. */
  function FilesOf(dataset: seq<Example>): (files: seq<File>)
    ensures |files| == |dataset|
    ensures forall i :: 0 <= i < |dataset| ==> files[i] == dataset[i].file
  {
    seq(|dataset|, i requires 0 <= i < |dataset| => dataset[i].file)
  }

  /** A lookup whose values are class indices: what `labels_for_dir` produces. */
  ghost predicate ClassIndexLookup(lookup: map<string, int>) {
    forall n :: n in lookup ==> 0 <= lookup[n] < |lookup|
  }

  /** Every file has a parent name the lookup knows. */
  ghost predicate AllKnown(found: seq<File>, lookup: map<string, int>) {
    forall f :: f in found ==> ParentName(f) in lookup
  }

  /**
   * `dataset_from_dir` for the files the search found below the split
   * directory: the files in path order, each paired with the one-hot row of
   * its parent directory's class, with one row per file and one column per
   * key of the lookup.
   */
  function DatasetFromDir(found: seq<File>, lookup: map<string, int>, returnFiles: bool): (r: Result<FromDir, Error>)
    ensures r.Ok? ==> r.value.count == |found| && |r.value.dataset| == |found|
    ensures r.Ok? ==> multiset(FilesOf(r.value.dataset)) == multiset(found)
    ensures r.Ok? ==> SortedBy(FilesOf(r.value.dataset), PathLess)
    ensures r.Ok? ==> r.value.files == if returnFiles then Some(FilesOf(r.value.dataset)) else None
  {
    var files := SortedFiles(found);
    assert |files| == |found| && forall f :: f in found <==> f in files by {
      assert |multiset(files)| == |multiset(found)|;
      assert forall f :: f in found <==> f in multiset(files);
    }
    var labels := LookupLabels(files, lookup);
    if labels.Err? then
      Err(labels.error)
    else
      var rows := ToCategorical(labels.value, |lookup|);
      if rows.Err? then
        Err(rows.error)
      else
        var dataset := seq(|files|, i requires 0 <= i < |files| => Example(files[i], rows.value[i]));
        assert FilesOf(dataset) == files;
        Ok(FromDir(dataset, |files|, if returnFiles then Some(files) else None))
  }

  /** A file whose parent name is not a key raises a `KeyError` naming the first such parent in path order. */
  lemma MissingParentFails(found: seq<File>, lookup: map<string, int>, returnFiles: bool)
    requires !AllKnown(found, lookup)
    ensures DatasetFromDir(found, lookup, returnFiles).Err?
    ensures exists k :: 0 <= k < |SortedFiles(found)| && FirstMissing(SortedFiles(found), lookup, k)
                     && DatasetFromDir(found, lookup, returnFiles).error == KeyError(ParentName(SortedFiles(found)[k]))
  {
    var files := SortedFiles(found);
    var f :| f in found && ParentName(f) !in lookup;
    assert f in multiset(files);
    var i :| 0 <= i < |files| && files[i] == f;
    assert !LookupLabels(files, lookup).Ok?;
  }

  /** With a lookup of class indices, the dataset is built exactly when every parent name is a class and there is a class. */
  lemma DatasetFromDirSucceeds(found: seq<File>, lookup: map<string, int>, returnFiles: bool)
    requires ClassIndexLookup(lookup)
    ensures DatasetFromDir(found, lookup, returnFiles).Ok? <==> AllKnown(found, lookup) && |lookup| > 0
  {
    var files := SortedFiles(found);
    assert forall f :: f in found <==> f in files by {
      assert forall f :: f in found <==> f in multiset(files);
    }
    var labels := LookupLabels(files, lookup);
    if AllKnown(found, lookup) && |lookup| > 0 {
      assert labels.Ok?;
      assert forall i :: 0 <= i < |labels.value| ==> Addresses(labels.value[i], |lookup|);
    }
    if DatasetFromDir(found, lookup, returnFiles).Ok? {
      assert labels.Ok?;
      forall f | f in found
        ensures ParentName(f) in lookup
      {
        var i :| 0 <= i < |files| && files[i] == f;
      }
    }
  }

  /** Each element pairs its file with the one-hot row of the file's parent class, one column per key. */
  lemma DatasetRows(found: seq<File>, lookup: map<string, int>, returnFiles: bool, i: int)
    requires DatasetFromDir(found, lookup, returnFiles).Ok?
    requires 0 <= i < |DatasetFromDir(found, lookup, returnFiles).value.dataset|
    ensures var e := DatasetFromDir(found, lookup, returnFiles).value.dataset[i];
      && ParentName(e.file) in lookup
      && Addresses(lookup[ParentName(e.file)], |lookup|)
      && IsOneHot(e.row, Column(lookup[ParentName(e.file)], |lookup|), |lookup|)
  {
  }

  /** `Metadata(labels, train_count, valid_count, test_count)`. */
  datatype Metadata = Metadata(labels: map<string, nat>, trainCount: nat, validCount: nat, testCount: nat)

  /**
   * The train, valid and test datasets as their (file, one-hot row) elements,
   * before the pipeline shuffles, loads, augments and batches them, and the
   * metadata.
   */
  datatype Splits = Splits(train: seq<Example>, valid: seq<Example>, test: seq<Example>, metadata: Metadata)

  /** Every element's row is the one-hot row of its parent's class under `labels`. */
  ghost predicate LabelledBy(dataset: seq<Example>, labels: map<string, nat>) {
    forall i :: 0 <= i < |dataset| ==>
      && ParentName(dataset[i].file) in labels
      && IsOneHot(dataset[i].row, labels[ParentName(dataset[i].file)], |labels|)
  }

  /**
   * `dataset.shuffle(count)` with the split's own count as the buffer size:
   * refused when the split has no files, and otherwise the same elements
   * (the order the shuffle draws them in is not modelled).
   */
  function Shuffle(split: FromDir): (r: Result<FromDir, Error>)
    ensures r.Ok? <==> split.count > 0
    ensures r.Ok? ==> r.value == split
    ensures r.Err? ==> r.error == EmptyShuffleBuffer
  {
    if split.count == 0 then Err(EmptyShuffleBuffer) else Ok(split)
  }

  /**
   * `load_datasets`: one vocabulary, built from the sub-directories of
   * `train/`, labels all three splits, which are built in the order train,
   * valid, test, each shuffled with its own size as the buffer as soon as it
   * is built, so the first failing step decides the error.
   */
  function LoadDatasets(trainChildren: seq<Child>, trainFound: seq<File>, validFound: seq<File>, testFound: seq<File>): (r: Result<Splits, Error>)
    requires DistinctNames(trainChildren)
    ensures r.Ok? ==> r.value.metadata.labels == LabelsForDir(trainChildren)
    ensures r.Ok? ==> r.value.metadata.trainCount == |r.value.train| == |trainFound|
    ensures r.Ok? ==> r.value.metadata.validCount == |r.value.valid| == |validFound|
    ensures r.Ok? ==> r.value.metadata.testCount == |r.value.test| == |testFound|
  {
    var labels := LabelsForDir(trainChildren);
    var train :- DatasetFromDir(trainFound, labels, false);
    var _ :- Shuffle(train);
    var valid :- DatasetFromDir(validFound, labels, false);
    var _ :- Shuffle(valid);
    var test :- DatasetFromDir(testFound, labels, false);
    var _ :- Shuffle(test);
    Ok(Splits(train.dataset, valid.dataset, test.dataset, Metadata(labels, train.count, valid.count, test.count)))
  }

  /** Every file of every split has a parent directory that is a sub-directory of `train/`. */
  ghost predicate AllTrainClasses(trainChildren: seq<Child>, found: seq<File>) {
    forall f :: f in found ==> Child(ParentName(f), true) in trainChildren
  }

  /**
   * Loading succeeds exactly when `train/` has a sub-directory, every split
   * has at least one file, and every file of every split is under a
   * sub-directory of `train/` of the same name.
   */
  lemma LoadDatasetsSucceeds(trainChildren: seq<Child>, trainFound: seq<File>, validFound: seq<File>, testFound: seq<File>)
    requires DistinctNames(trainChildren)
    ensures LoadDatasets(trainChildren, trainFound, validFound, testFound).Ok? <==>
      && (exists n :: Child(n, true) in trainChildren)
      && AllTrainClasses(trainChildren, trainFound)
      && AllTrainClasses(trainChildren, validFound)
      && AllTrainClasses(trainChildren, testFound)
      && |trainFound| > 0 && |validFound| > 0 && |testFound| > 0
  {
    var labels := LabelsForDir(trainChildren);
    DatasetFromDirSucceeds(trainFound, labels, false);
    DatasetFromDirSucceeds(validFound, labels, false);
    DatasetFromDirSucceeds(testFound, labels, false);
    assert (exists n :: Child(n, true) in trainChildren) <==> |labels| > 0 by {
      if |labels| > 0 {
        var n :| n in labels;
      }
      if exists n :: Child(n, true) in trainChildren {
        var n :| Child(n, true) in trainChildren;
        assert n in labels;
      }
    }
  }

  /** A class directory without images: the train split is built with no elements, and its shuffle refuses the empty buffer. */
  lemma EmptyTrainSplitFails()
    ensures LoadDatasets([Child("a", true)], [], [], []) == Err(EmptyShuffleBuffer)
  {
  }

  /** All three splits are labelled by the one vocabulary built from `train/`. */
  lemma SharedVocabulary(trainChildren: seq<Child>, trainFound: seq<File>, validFound: seq<File>, testFound: seq<File>)
    requires DistinctNames(trainChildren)
    requires LoadDatasets(trainChildren, trainFound, validFound, testFound).Ok?
    ensures var s := LoadDatasets(trainChildren, trainFound, validFound, testFound).value;
      && LabelledBy(s.train, s.metadata.labels)
      && LabelledBy(s.valid, s.metadata.labels)
      && LabelledBy(s.test, s.metadata.labels)
  {
    var labels := LabelsForDir(trainChildren);
    SplitLabelled(trainFound, labels);
    SplitLabelled(validFound, labels);
    SplitLabelled(testFound, labels);
  }

  /** A split built with the vocabulary is labelled by it. */
  lemma SplitLabelled(found: seq<File>, labels: map<string, nat>)
    requires ClassIndexLookup(labels)
    requires DatasetFromDir(found, labels, false).Ok?
    ensures LabelledBy(DatasetFromDir(found, labels, false).value.dataset, labels)
  {
    var dataset := DatasetFromDir(found, labels, false).value.dataset;
    forall i | 0 <= i < |dataset|
      ensures ParentName(dataset[i].file) in labels
      ensures IsOneHot(dataset[i].row, labels[ParentName(dataset[i].file)], |labels|)
    {
      DatasetRows(found, labels, false, i);
    }
  }

  /**
   * Splits are checked one after the other: a missing class in `train/`, or
   * an empty `train/`, is reported before anything in `valid/`, and that
   * before anything in `test/`. Within a split a missing class is reported
   * before the split's emptiness, which cannot coexist with it.
   */
  lemma LoadDatasetsFirstError(trainChildren: seq<Child>, trainFound: seq<File>, validFound: seq<File>, testFound: seq<File>)
    requires DistinctNames(trainChildren)
    ensures var r := LoadDatasets(trainChildren, trainFound, validFound, testFound);
      var labels := LabelsForDir(trainChildren);
      var trainBuilt := AllKnown(trainFound, labels) && |labels| > 0;
      var validBuilt := trainBuilt && |trainFound| > 0 && AllKnown(validFound, labels);
      var testBuilt := validBuilt && |validFound| > 0 && AllKnown(testFound, labels);
      && (!AllKnown(trainFound, labels) ==> r.Err? && MissingIn(trainFound, labels, r.error))
      && (trainBuilt && |trainFound| == 0 ==> r == Err(EmptyShuffleBuffer))
      && (trainBuilt && |trainFound| > 0 && !AllKnown(validFound, labels) ==> r.Err? && MissingIn(validFound, labels, r.error))
      && (validBuilt && |validFound| == 0 ==> r == Err(EmptyShuffleBuffer))
      && (validBuilt && |validFound| > 0 && !AllKnown(testFound, labels) ==> r.Err? && MissingIn(testFound, labels, r.error))
      && (testBuilt && |testFound| == 0 ==> r == Err(EmptyShuffleBuffer))
  {
    var labels := LabelsForDir(trainChildren);
    DatasetFromDirSucceeds(trainFound, labels, false);
    DatasetFromDirSucceeds(validFound, labels, false);
    DatasetFromDirSucceeds(testFound, labels, false);
    if !AllKnown(trainFound, labels) {
      MissingParentFails(trainFound, labels, false);
    }
    if !AllKnown(validFound, labels) {
      MissingParentFails(validFound, labels, false);
    }
    if !AllKnown(testFound, labels) {
      MissingParentFails(testFound, labels, false);
    }
  }

  /** The error is the `KeyError` for the first file of the split, in path order, whose parent is not a class. */
  ghost predicate MissingIn(found: seq<File>, labels: map<string, int>, e: Error) {
    exists k :: 0 <= k < |SortedFiles(found)| && FirstMissing(SortedFiles(found), labels, k) && e == KeyError(ParentName(SortedFiles(found)[k]))
  }
}
