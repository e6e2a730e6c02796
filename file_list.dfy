/** Patient folder discovery and the train/validation split
    (`get_file_list`): the directory listing is filtered by a reserved
    marker, each remaining folder yields one (MR, CT) path pair, and the
    pair list is cut with Python slice semantics. */
module FileList {
  import opened PyPath

  /** Listing entries whose name contains this are not patient folders. */
  const MARKER: string := "overview"
  /** The fixed file names inside every patient folder. */
  const MR_FILE: string := "mr.nii.gz"
  const CT_FILE: string := "ct.nii.gz"

  /** One sample: `imagePath` (key `image`) is the MR volume, `labelPath` (key `label`) the CT volume;
      `aPaths`/`bPaths` are the second naming convention for the same two. */
  datatype Sample = Sample(imagePath: string, labelPath: string, aPaths: string, bPaths: string)

  /** Python's `sub in s` on strings. */
  predicate Contains(s: string, sub: string) {
    exists i :: 0 <= i <= |s| && sub <= s[i..]
  }

  /** The listing entries that are patient folders, in listing order. */
  function PatientDirs(listing: seq<string>): seq<string> {
    if listing == [] then []
    else (if Contains(listing[0], MARKER) then [] else [listing[0]]) + PatientDirs(listing[1..])
  }

  /** Reference definition by position: the indices from `i` on whose entry
      is a patient folder, ascending. */
  function KeptIndicesFrom(listing: seq<string>, i: nat): seq<nat>
    requires i <= |listing|
    decreases |listing| - i
  {
    if i == |listing| then []
    else (if Contains(listing[i], MARKER) then [] else [i]) + KeptIndicesFrom(listing, i + 1)
  }

  function KeptIndices(listing: seq<string>): seq<nat> {
    KeptIndicesFrom(listing, 0)
  }

  /** Python's normalisation of a slice bound against a sequence of length
      `len`: a negative bound counts from the end, and both are clipped. */
  function SliceIndex(i: int, len: nat): (r: nat)
    ensures r <= len
  {
    if i < 0 then (if len + i < 0 then 0 else len + i)
    else if i < len then i else len
  }

  /** Python's `s[start:stop]`. */
  function PySlice<T>(s: seq<T>, start: int, stop: int): seq<T> {
    var lo := SliceIndex(start, |s|);
    var hi := SliceIndex(stop, |s|);
    if lo < hi then s[lo..hi] else []
  }

  /** Python's `zip(mr, ct)` turned into sample records (it stops at the
      shorter list). */
  function ZipSamples(mr: seq<string>, ct: seq<string>): seq<Sample> {
    var n := if |mr| < |ct| then |mr| else |ct|;
    seq(n, k requires 0 <= k < n => Sample(mr[k], ct[k], mr[k], ct[k]))
  }

  /** `os.path.join(os.path.join(root, d), file)` for every folder `d`. */
  function FilePaths(root: string, dirs: seq<string>, file: string): seq<string> {
    seq(|dirs|, k requires 0 <= k < |dirs| => Join(Join(root, dirs[k]), file))
  }

  /** The full ordered pair list, before any split. */
  function AllSamples(root: string, listing: seq<string>): seq<Sample> {
    var dirs := PatientDirs(listing);
    ZipSamples(FilePaths(root, dirs, MR_FILE), FilePaths(root, dirs, CT_FILE))
  }

  /** `get_file_list(root, train_number, val_number)` with the directory
      listing passed in: the training list zips `[0:train_number]` of both
      path lists, the validation list zips `[-val_number:]` of both. */
  function GetFileList(root: string, listing: seq<string>, trainNumber: int, valNumber: int)
    : (seq<Sample>, seq<Sample>)
  {
    var dirs := PatientDirs(listing);
    var mr := FilePaths(root, dirs, MR_FILE);
    var ct := FilePaths(root, dirs, CT_FILE);
    (ZipSamples(PySlice(mr, 0, trainNumber), PySlice(ct, 0, trainNumber)),
     ZipSamples(PySlice(mr, -valNumber, |mr|), PySlice(ct, -valNumber, |ct|)))
  }

  /** The two slice shapes `get_file_list` uses: `s[0:n]` is the first
      `min(n, len(s))` elements for `n >= 0`; `s[-m:]` is the last
      `min(m, len(s))` elements for `m > 0`, and `s[-0:]` is all of `s`. */
  lemma PySliceSpec<T>(s: seq<T>, n: int, m: int)
    requires n >= 0 && m >= 0
    ensures PySlice(s, 0, n) == s[..if n < |s| then n else |s|]
    ensures m > 0 ==> PySlice(s, -m, |s|) == s[|s| - (if m < |s| then m else |s|)..]
    ensures m == 0 ==> PySlice(s, -m, |s|) == s
  {
    if m == 0 {
      assert s[0..|s|] == s;
    }
  }

  /** Element `k` of `s[start:stop]` is element `lo + k` of `s`, where `lo`
      is the normalised start. */
  lemma PySliceIndex<T>(s: seq<T>, start: int, stop: int)
    ensures var lo := SliceIndex(start, |s|);
      var hi := SliceIndex(stop, |s|);
      |PySlice(s, start, stop)| == (if lo < hi then hi - lo else 0) &&
      forall k :: 0 <= k < |PySlice(s, start, stop)| ==> PySlice(s, start, stop)[k] == s[lo + k]
  {
  }

  // ---------------------------------------------------------------------
  // The folder filter

  lemma {:induction false} KeptIndicesFromBounds(listing: seq<string>, i: nat)
    requires i <= |listing|
    ensures forall k :: 0 <= k < |KeptIndicesFrom(listing, i)| ==>
      i <= KeptIndicesFrom(listing, i)[k] < |listing|
    ensures forall j, k :: 0 <= j < k < |KeptIndicesFrom(listing, i)| ==>
      KeptIndicesFrom(listing, i)[j] < KeptIndicesFrom(listing, i)[k]
    ensures forall x :: x in KeptIndicesFrom(listing, i) <==>
      i <= x < |listing| && !Contains(listing[x], MARKER)
    decreases |listing| - i
  {
    if i < |listing| {
      KeptIndicesFromBounds(listing, i + 1);
    }
  }

  /** The filter keeps exactly the patient-folder entries at their listing
      positions: the k-th folder is the entry at the k-th kept index. */
  lemma {:induction false} PatientDirsFrom(listing: seq<string>, i: nat)
    requires i <= |listing|
    ensures |PatientDirs(listing[i..])| == |KeptIndicesFrom(listing, i)|
    ensures forall k :: 0 <= k < |KeptIndicesFrom(listing, i)| ==>
      KeptIndicesFrom(listing, i)[k] < |listing| &&
      PatientDirs(listing[i..])[k] == listing[KeptIndicesFrom(listing, i)[k]]
    decreases |listing| - i
  {
    KeptIndicesFromBounds(listing, i);
    if i < |listing| {
      PatientDirsFrom(listing, i + 1);
      assert listing[i..][1..] == listing[i + 1..];
    }
  }

  /** The filter of `get_file_list`: the patient folders are the listing
      entries at the ascending kept indices, and an index is kept exactly
      when its entry does not contain the marker. So every marker entry is
      excluded and every other entry appears once, in listing order. */
  lemma PatientDirsSpec(listing: seq<string>)
    ensures |PatientDirs(listing)| == |KeptIndices(listing)|
    ensures forall k :: 0 <= k < |KeptIndices(listing)| ==>
      KeptIndices(listing)[k] < |listing| &&
      PatientDirs(listing)[k] == listing[KeptIndices(listing)[k]]
    ensures forall j, k :: 0 <= j < k < |KeptIndices(listing)| ==>
      KeptIndices(listing)[j] < KeptIndices(listing)[k]
    ensures forall x :: x in KeptIndices(listing) <==>
      0 <= x < |listing| && !Contains(listing[x], MARKER)
  {
    KeptIndicesFromBounds(listing, 0);
    PatientDirsFrom(listing, 0);
    assert listing[0..] == listing;
  }

  /** No patient folder contains the marker. */
  lemma {:induction false} PatientDirsExcludeMarker(listing: seq<string>)
    ensures forall d :: d in PatientDirs(listing) ==> !Contains(d, MARKER)
  {
    if listing != [] {
      PatientDirsExcludeMarker(listing[1..]);
    }
  }

  // ---------------------------------------------------------------------
  // The pairs

  /** Each pair is `<root>/<dir>/mr.nii.gz` and `<root>/<dir>/ct.nii.gz`
      for the k-th patient folder, and the alias keys repeat them. */
  lemma AllSamplesSpec(root: string, listing: seq<string>)
    ensures |AllSamples(root, listing)| == |PatientDirs(listing)|
    ensures forall k :: 0 <= k < |AllSamples(root, listing)| ==>
      var s := AllSamples(root, listing)[k];
      s.imagePath == Join(Join(root, PatientDirs(listing)[k]), MR_FILE) &&
      s.labelPath == Join(Join(root, PatientDirs(listing)[k]), CT_FILE) &&
      s.aPaths == s.imagePath && s.bPaths == s.labelPath
  {
  }

  /** Zipping two equally long lists commutes with slicing both. */
  lemma ZipSlice(mr: seq<string>, ct: seq<string>, start: int, stop: int)
    requires |mr| == |ct|
    ensures ZipSamples(PySlice(mr, start, stop), PySlice(ct, start, stop))
         == PySlice(ZipSamples(mr, ct), start, stop)
  {
    var z := ZipSamples(mr, ct);
    var lo := SliceIndex(start, |mr|);
    var hi := SliceIndex(stop, |mr|);
    if lo < hi {
      assert ZipSamples(mr[lo..hi], ct[lo..hi]) == z[lo..hi];
    }
  }

  /** Both lists are Python slices of the full pair list. */
  lemma GetFileListSlices(root: string, listing: seq<string>, trainNumber: int, valNumber: int)
    ensures GetFileList(root, listing, trainNumber, valNumber).0
         == PySlice(AllSamples(root, listing), 0, trainNumber)
    ensures GetFileList(root, listing, trainNumber, valNumber).1
         == PySlice(AllSamples(root, listing), -valNumber, |AllSamples(root, listing)|)
  {
    var dirs := PatientDirs(listing);
    var mr := FilePaths(root, dirs, MR_FILE);
    var ct := FilePaths(root, dirs, CT_FILE);
    ZipSlice(mr, ct, 0, trainNumber);
    ZipSlice(mr, ct, -valNumber, |mr|);
  }

  /** The split for non-negative counts: training is the first
      `min(train_number, P)` pairs; validation is the last
      `min(val_number, P)` pairs, except that `val_number = 0` gives the
      whole list (`[-0:]` is `[0:]`). */
  lemma GetFileListSplit(root: string, listing: seq<string>, trainNumber: int, valNumber: int)
    requires trainNumber >= 0 && valNumber >= 0
    ensures var all := AllSamples(root, listing);
      var p := |all|;
      var (train, val) := GetFileList(root, listing, trainNumber, valNumber);
      train == all[..if trainNumber < p then trainNumber else p] &&
      val == if valNumber == 0 then all
             else all[p - (if valNumber < p then valNumber else p)..]
  {
    GetFileListSlices(root, listing, trainNumber, valNumber);
    PySliceSpec(AllSamples(root, listing), trainNumber, valNumber);
  }

  /** No disjointness is enforced: when `val_number = 0`, or the two counts
      together exceed the number of pairs, some pair is in both lists. */
  lemma SplitsOverlap(root: string, listing: seq<string>, trainNumber: int, valNumber: int)
    requires trainNumber > 0 && valNumber >= 0
    requires |AllSamples(root, listing)| > 0
    requires valNumber == 0 || trainNumber + valNumber > |AllSamples(root, listing)|
    ensures var (train, val) := GetFileList(root, listing, trainNumber, valNumber);
      exists s :: s in train && s in val
  {
    GetFileListSplit(root, listing, trainNumber, valNumber);
    var all := AllSamples(root, listing);
    var p := |all|;
    var (train, val) := GetFileList(root, listing, trainNumber, valNumber);
    var k := if valNumber == 0 then 0 else p - (if valNumber < p then valNumber else p);
    assert k < |train| && train[k] == all[k];
    assert |val| > 0 && val[0] == all[k];
    assert train[k] in train && val[0] in val;
  }

  /** When the counts fit (`train_number + val_number <= P`) the lists have
      exactly the requested sizes, the validation list is the last
      `val_number` pairs, and the two are disjoint slices of the pair list. */
  lemma SplitsDisjointWhenTheyFit(root: string, listing: seq<string>, trainNumber: int, valNumber: int)
    requires trainNumber >= 0 && valNumber > 0
    requires trainNumber + valNumber <= |AllSamples(root, listing)|
    ensures |GetFileList(root, listing, trainNumber, valNumber).0| == trainNumber
    ensures |GetFileList(root, listing, trainNumber, valNumber).1| == valNumber
    ensures GetFileList(root, listing, trainNumber, valNumber).0 == AllSamples(root, listing)[..trainNumber]
    ensures GetFileList(root, listing, trainNumber, valNumber).1
         == AllSamples(root, listing)[|AllSamples(root, listing)| - valNumber..]
    ensures trainNumber <= |AllSamples(root, listing)| - valNumber
  {
    GetFileListSlices(root, listing, trainNumber, valNumber);
    PySliceSpec(AllSamples(root, listing), trainNumber, valNumber);
  }

}
