/** Recovering a sample's patient identifier from its image path, as
    `save_volumes`, `check_volumes` and `transform_datasets_to_2d` do with
    `basename(dirname(image))`. */
module Patients {
  import opened PyPath
  import opened FileList

  /** The patient name of a sample: the folder that holds its image file. */
  function PatientName(s: Sample): string {
    Basename(Dirname(s.imagePath))
  }

  /** A listing as `os.listdir` produces it: every entry is one path component. */
  predicate ListingOfComponents(listing: seq<string>) {
    forall i :: 0 <= i < |listing| ==> IsComponent(listing[i])
  }

  /** A sample whose image sits in folder `d` under any root has patient name `d`. */
  lemma PatientNameOfFolder(root: string, d: string, s: Sample)
    requires IsComponent(d)
    requires s.imagePath == Join(Join(root, d), MR_FILE)
    ensures PatientName(s) == d
  {
    assert SEP !in MR_FILE;
    BasenameDirnameJoin(root, d, MR_FILE);
  }

  /** Filtering a listing of components leaves components. */
  lemma PatientDirsAreComponents(listing: seq<string>)
    requires ListingOfComponents(listing)
    ensures forall k :: 0 <= k < |PatientDirs(listing)| ==> IsComponent(PatientDirs(listing)[k])
  {
    PatientDirsSpec(listing);
  }

  /** The patient name of the k-th pair is the k-th patient folder, whatever
      the root. */
  lemma {:induction false} PatientNameOfAllSamples(root: string, listing: seq<string>)
    requires ListingOfComponents(listing)
    ensures |AllSamples(root, listing)| == |PatientDirs(listing)|
    ensures forall k :: 0 <= k < |AllSamples(root, listing)| ==>
      PatientName(AllSamples(root, listing)[k]) == PatientDirs(listing)[k]
  {
    AllSamplesSpec(root, listing);
    PatientDirsAreComponents(listing);
    var all := AllSamples(root, listing);
    var dirs := PatientDirs(listing);
    forall k | 0 <= k < |all|
      ensures PatientName(all[k]) == dirs[k]
    {
      PatientNameOfFolder(root, dirs[k], all[k]);
    }
  }

  /** The names recorded for the training and validation samples of
      `get_file_list` are the folder names the samples were built from:
      the first ones for training and the last ones for validation. */
  lemma PatientNamesOfSplit(root: string, listing: seq<string>, trainNumber: int, valNumber: int)
    requires ListingOfComponents(listing)
    requires trainNumber >= 0 && valNumber >= 0
    ensures var dirs := PatientDirs(listing);
      var (train, val) := GetFileList(root, listing, trainNumber, valNumber);
      (forall k :: 0 <= k < |train| ==> PatientName(train[k]) == dirs[k]) &&
      (forall k :: 0 <= k < |val| ==> PatientName(val[k]) == dirs[|dirs| - |val| + k])
  {
    PatientNameOfAllSamples(root, listing);
    GetFileListSplit(root, listing, trainNumber, valNumber);
    var dirs := PatientDirs(listing);
    var all := AllSamples(root, listing);
    var (train, val) := GetFileList(root, listing, trainNumber, valNumber);
    var lo := |all| - |val|;
    assert val == all[lo..];
    forall k | 0 <= k < |val|
      ensures PatientName(val[k]) == dirs[lo + k]
    {
      assert val[k] == all[lo + k];
    }
  }

  // The two lemmas below hold for any naming of list elements; they are
  // stated over a naming function so that the slice arithmetic is proved
  // apart from the path functions behind `PatientName`.

  /** Element k of a Python slice is named `dirs[lo + k]`, where `lo` is
      the slice's normalised start, when element k of the whole list is
      named `dirs[k]`. */
  lemma SliceNames<T>(all: seq<T>, name: T -> string, dirs: seq<string>, start: int, stop: int)
    requires |all| == |dirs|
    requires forall k :: 0 <= k < |all| ==> name(all[k]) == dirs[k]
    ensures var part := PySlice(all, start, stop);
      var lo := SliceIndex(start, |all|);
      lo + |part| <= |dirs| &&
      forall k :: 0 <= k < |part| ==> name(part[k]) == dirs[lo + k]
  {
    PySliceIndex(all, start, stop);
  }

  /** A Python slice of elements named after marker-free folders is itself
      marker-free. */
  lemma SliceExcludesMarker<T>(all: seq<T>, name: T -> string, dirs: seq<string>, start: int, stop: int)
    requires |all| == |dirs|
    requires forall k :: 0 <= k < |all| ==> name(all[k]) == dirs[k]
    requires forall d :: d in dirs ==> !Contains(d, MARKER)
    ensures forall s :: s in PySlice(all, start, stop) ==> !Contains(name(s), MARKER)
  {
    var part := PySlice(all, start, stop);
    var lo := SliceIndex(start, |all|);
    SliceNames(all, name, dirs, start, stop);
    forall s | s in part
      ensures !Contains(name(s), MARKER)
    {
      var k :| 0 <= k < |part| && part[k] == s;
      assert dirs[lo + k] in dirs;
    }
  }

  /** No sample of either split of `get_file_list`, for any counts, is
      named after a folder containing the `overview` marker. */
  lemma SplitsExcludeMarker(root: string, listing: seq<string>, trainNumber: int, valNumber: int)
    requires ListingOfComponents(listing)
    ensures var (train, val) := GetFileList(root, listing, trainNumber, valNumber);
      (forall s :: s in train ==> !Contains(PatientName(s), MARKER)) &&
      (forall s :: s in val ==> !Contains(PatientName(s), MARKER))
  {
    var dirs := PatientDirs(listing);
    var all := AllSamples(root, listing);
    PatientNameOfAllSamples(root, listing);
    PatientDirsExcludeMarker(listing);
    GetFileListSlices(root, listing, trainNumber, valNumber);
    SliceExcludesMarker(all, PatientName, dirs, 0, trainNumber);
    SliceExcludesMarker(all, PatientName, dirs, -valNumber, |all|);
  }

  /** The patient column of the manifests `save_volumes` writes: one name per
      sample of each split, in sample order. The file writing itself is not
      part of this model. */
  method SaveVolumesNames(trainDs: seq<Sample>, valDs: seq<Sample>)
    returns (trainNames: seq<string>, valNames: seq<string>)
    ensures |trainNames| == |trainDs| && |valNames| == |valDs|
    ensures forall k :: 0 <= k < |trainDs| ==> trainNames[k] == PatientName(trainDs[k])
    ensures forall k :: 0 <= k < |valDs| ==> valNames[k] == PatientName(valDs[k])
  {
    trainNames := [];
    for i := 0 to |trainDs|
      invariant |trainNames| == i
      invariant forall k :: 0 <= k < i ==> trainNames[k] == PatientName(trainDs[k])
    {
      trainNames := trainNames + [PatientName(trainDs[i])];
    }
    valNames := [];
    for i := 0 to |valDs|
      invariant |valNames| == i
      invariant forall k :: 0 <= k < i ==> valNames[k] == PatientName(valDs[k])
    {
      valNames := valNames + [PatientName(valDs[i])];
    }
  }
}
