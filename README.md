# SynDiff data bookkeeping, modelled in Dafny

This project models the bookkeeping that `my_dataset.py` of SynDiff does
around its MONAI and PyTorch calls, and proves properties of it:

- **File pairing and split** (`get_file_list`). The directory listing is
  filtered by the substring `overview`. Every remaining folder `d` yields one
  sample with `image = <root>/<d>/mr.nii.gz` and `label = <root>/<d>/ct.nii.gz`,
  and the alias keys `A_paths`/`B_paths` repeat both paths. The pair list is cut
  with Python slice semantics: `[0:train_number]` for training and
  `[-val_number:]` for validation. `zip` stops at the shorter list.
- **Patient names.** `basename(dirname(image))` recovers the patient folder
  in `save_volumes`, `check_volumes` and `transform_datasets_to_2d`.
  `os.path.join`, `basename` and `dirname` follow Python's `posixpath`. `join`
  replaces the path with an absolute component; otherwise it appends the
  component, inserting a separator only when the path is non-empty and does
  not already end in one. `basename` is everything after the last `/` (so
  `basename("a/b/")` is empty). `dirname` is everything up to and including
  the last `/`, with its trailing separators stripped unless it consists of
  separators only.
- **Transform pipeline** (`get_transforms`). The pipeline is an ordered list
  of step tokens that depends on the `normalize` string.
- **Slice materialisation** (`transform_datasets_to_2d`). Each volume's depth
  is padded up to a multiple of `batch_size`. One 2D entry is emitted per
  depth index, and the method keeps running slice totals and one
  `(patient, shape)` record per sample.
- **Batch count** (`get_length`). This is the ceiling of the summed depths
  over the batch size, written with Python's floor `//` and `%`.

Modules:

- `PyPath` (`py_path.dfy`): the path functions.
- `FileList` (`file_list.dfy`): `get_file_list`, with the directory listing
  passed in as a sequence.
- `Patients` (`patients.dfy`): patient-name recovery and the name columns of
  `save_volumes`.
- `Transforms` (`transforms.dfy`): `get_transforms`, as an imperative method
  that appends tokens.
- `Slices` (`slices.dfy`): `transform_datasets_to_2d` and `get_length`, as
  loops proved against specification functions.

The image file is never read. Each sample's image and label shapes, as
`LoadImaged` would return them without a channel axis, are passed in. A 2D
entry is the pair (sample number, depth index).

`DivisiblePadd(k=(-1, batch_size))` works on such an array as follows.
MONAI treats the array's first axis as the channel, so the width is
unchanged. A factor of -1 leaves the height unchanged, and the depth becomes
the smallest multiple of `batch_size` that is at least the raw depth. A
non-positive factor leaves an axis as it is.

The loop indexes the label at every depth index of the padded image. A label
whose padded depth is smaller than the image's raises an `IndexError` there.
The model returns this as `Err(LabelTooShallow(split, sample, z))`: it names
the first such sample, with the training split processed first, and `z` is
the first index the label lacks.

## Model

| member | source | states |
|---|---|---|
| PyPath.Join | my_dataset.py:25-28 | An absolute second component replaces the path. Otherwise the result ends with the component and is at least as long as both parts together; `PyPath.JoinSpec` states the exact layout. |
| PyPath.JoinSpec | my_dataset.py:25-28 | For a relative component, the result is the path, then one separator exactly when the path is non-empty and does not end in one, then the component. |
| PyPath.RFindSpec | my_dataset.py:259 | `rfind` returns an index that holds the character, and no later index holds it. |
| PyPath.BasenameAfterLastSep | my_dataset.py:259 | The trailing run of non-separators is exactly `p[p.rfind('/')+1:]`, posixpath's basename. |
| PyPath.HeadUpToLastSep | my_dataset.py:259 | The head is exactly `p[:p.rfind('/')+1]`, the prefix posixpath's dirname starts from. |
| PyPath.Basename | my_dataset.py:259 | Computes the trailing run of non-separator characters; `PyPath.BasenameAfterLastSep` states that this is posixpath's basename. |
| PyPath.Head | my_dataset.py:259 | Computes the prefix up to and including the last separator; `PyPath.HeadUpToLastSep` states that this is posixpath's head. |
| PyPath.Dirname | my_dataset.py:259 | Computes posixpath's dirname from `Head`; `PyPath.DirnameJoinFile` and `PyPath.BasenameDirnameJoin` state what it gives on a joined path. |
| PyPath.BasenameDirnameJoin | my_dataset.py:25-28 | For every root, every folder name without a separator and every file name without one, `basename(dirname(join(join(root, d), file))) == d`. |
| FileList.PySlice | my_dataset.py:30-31 | Computes Python's `s[start:stop]` for any integer bounds; `FileList.PySliceSpec` states the two shapes used here. |
| FileList.PySliceSpec | my_dataset.py:30-31 | For `n >= 0`, `s[0:n]` is the first `min(n, len(s))` elements. For `m > 0`, `s[-m:]` is the last `min(m, len(s))`; `s[-0:]` is all of `s`. |
| FileList.PatientDirs | my_dataset.py:24 | Computes the listing entries without `overview`, in order; `FileList.PatientDirsSpec` and `FileList.PatientDirsExcludeMarker` state its properties. |
| FileList.Contains | my_dataset.py:24 | Substring test behind the `overview` filter; `FileList.PatientDirsSpec` states that a folder is kept exactly when its name does not contain `overview`. |
| FileList.FilePaths | my_dataset.py:25-28 | Computes `<root>/<dir>/<file>` for every kept folder, in folder order; `FileList.AllSamplesSpec` states this per index. |
| FileList.ZipSamples | my_dataset.py:30-31 | Pairs the two path lists up to the shorter one, with the alias keys repeating the paths; `FileList.ZipSlice` states that it commutes with slicing. |
| FileList.AllSamples | my_dataset.py:25-31 | Computes the full ordered pair list before any split; `FileList.AllSamplesSpec` states its length and each pair's paths. |
| FileList.GetFileList | my_dataset.py:22-33 | Computes both lists from the listing; `FileList.GetFileListSlices`, `FileList.GetFileListSplit`, `FileList.SplitsOverlap`, `FileList.SplitsDisjointWhenTheyFit` and `FileList.AllSamplesSpec` state its properties. |
| FileList.PatientDirsSpec | my_dataset.py:24 | The kept folders are the listing entries at the kept indices, and the indices are strictly ascending. An index is kept iff its entry does not contain `overview`. |
| FileList.PatientDirsExcludeMarker | my_dataset.py:24 | No kept folder contains `overview`. |
| FileList.AllSamplesSpec | my_dataset.py:25-31 | There is one sample per kept folder, in order. `image` is `<root>/<d>/mr.nii.gz`, `label` is `<root>/<d>/ct.nii.gz`, and `A_paths`/`B_paths` equal them. |
| FileList.ZipSlice | my_dataset.py:30-31 | Helper for `FileList.GetFileListSlices`: zipping two equally long path lists commutes with slicing both. |
| FileList.GetFileListSlices | my_dataset.py:30-31 | The training list is `all[0:train_number]` and the validation list is `all[-val_number:]` of the full pair list, for any integers. |
| FileList.GetFileListSplit | my_dataset.py:30-31 | With non-negative counts, training is the first `min(train_number, P)` pairs. Validation is the last `min(val_number, P)` pairs, or the whole list when `val_number = 0`. |
| FileList.SplitsOverlap | my_dataset.py:30-31 | With `train_number > 0`, `P > 0`, and `val_number = 0` or `train_number + val_number > P`, some pair is in both lists. |
| FileList.SplitsDisjointWhenTheyFit | my_dataset.py:30-31 | When `train_number + val_number <= P` and `val_number > 0`, the lists have exactly the requested sizes and are disjoint prefix and suffix slices. |
| Patients.PatientName | my_dataset.py:259 | Computes `basename(dirname(image))`; `Patients.PatientNameOfFolder` and `Patients.PatientNameOfAllSamples` state that it is the patient folder. |
| Patients.PatientNameOfFolder | my_dataset.py:259 | A sample whose image is `<root>/<d>/mr.nii.gz` has patient name `d`. |
| Patients.PatientDirsAreComponents | my_dataset.py:24 | Helper for `Patients.PatientNameOfAllSamples`: filtering a listing of path components leaves path components. |
| Patients.PatientNameOfAllSamples | my_dataset.py:25-28 | The patient name of the k-th pair is the k-th kept folder. |
| Patients.PatientNamesOfSplit | my_dataset.py:30-31 | For non-negative counts, training sample k is named after folder k. Validation sample k is named after folder `P - len(val) + k`. |
| Patients.SplitsExcludeMarker | my_dataset.py:24-31 | For any counts, no sample of the training list and no sample of the validation list is named after a folder whose name contains `overview`. |
| Patients.SliceNames | my_dataset.py:30-31 | Helper for `Patients.SliceExcludesMarker`: element k of any Python slice carries the name of element `lo + k` of the whole list, `lo` being the normalised start. |
| Patients.SliceExcludesMarker | my_dataset.py:30-31 | Helper for `Patients.SplitsExcludeMarker`: any Python slice of a list whose names are all marker-free is marker-free. |
| Patients.SaveVolumesNames | my_dataset.py:254-263 | One name per sample of each split, in sample order, each the sample's patient name. |
| Transforms.NormalizationCountAppend | my_dataset.py:108-126 | Helper for `Transforms.GetTransforms`: the normalisation count of a concatenation is the sum of the counts. |
| Transforms.NoNormalization | my_dataset.py:108-126 | Helper for `Transforms.GetTransforms`: a list without normalisation steps counts zero. |
| Transforms.GetTransforms | my_dataset.py:108-128 | The list starts with Load, EnsureChannelFirst. It ends with ResizeWithPadOrCrop(resized_size, minimum), Rotate90(3), DivisiblePad(div_size, minimum). `zscore` puts NormalizeIntensity(nonzero=False, channel_wise=True) third; `minmax` puts ScaleIntensity(-1, 1) third. There are exactly one normalisation step and 6 steps for those two strings, and none and 5 steps for any other. |
| Slices.PaddedDepth | my_dataset.py:293 | Computes the depth after the padding; `Slices.RoundUpSpec` and `Slices.RoundUpClosedForm` state its value. |
| Slices.PadShape | my_dataset.py:293 | Computes the shape after the padding; `Slices.PadShapeSpec` states its properties. |
| Slices.RoundUpClosedForm | my_dataset.py:293 | The padded depth equals `ceil(d / k) * k`. |
| Slices.RoundUpSpec | my_dataset.py:293 | The padded depth is a multiple of `k` with `d <= r < d + k`. A multiple of `k` is unchanged, and no smaller multiple of `k` is at least `d`. |
| Slices.PadShapeSpec | my_dataset.py:293 | Padding keeps width and height. With a positive batch size the depth is the smallest multiple at least the raw depth; otherwise the shape is unchanged. |
| Slices.ShapeRecordsSpec | my_dataset.py:294-298 | There is one shape record per sample, in sample order, holding the sample's patient name and its padded image shape. |
| Slices.SlicesUpToSpec | my_dataset.py:299-300 | The entry list has length equal to the summed padded depths. Volume m's entries sit contiguously after those of volumes 0..m-1, with depth indices ascending. |
| Slices.SlicesUpToInRange | my_dataset.py:299-300 | Every entry names an existing volume and a depth index inside that volume's padded depth. |
| Slices.SliceCountIsWholeBatches | my_dataset.py:293-301 | With a positive batch size, the number of entries of a split is a multiple of the batch size. |
| Slices.DepthSumWholeBatches | my_dataset.py:293-301 | Helper for `Slices.SliceCountIsWholeBatches`: a sum of multiples of `k` is a multiple of `k`. |
| Slices.VolumeLoop | my_dataset.py:299-300 | The inner loop succeeds iff the label is at least as deep as the padded image, and then emits exactly one entry per depth index, ascending. |
| Slices.MaterializeSplit | my_dataset.py:291-301 | Succeeds iff every label fits. The entries are then the specification's list, the running total equals their number, and the shape records are one per sample. Otherwise the error names the first failing sample and the label's depth. |
| Slices.TransformDatasetsTo2D | my_dataset.py:281-317 | Both splits as above, training first. `all_slices_train == len(train_ds_2d)` and `all_slices_val == len(val_ds_2d)`. A training failure is reported before the validation split is looked at. |
| Slices.FloorDiv | my_dataset.py:211-213 | Computes Python's `//`; `Slices.FloorDivSpec` states that it is the floor of the quotient. |
| Slices.FloorDivSpec | my_dataset.py:211-213 | Python's `//` gives the greatest `q` with `b * q <= a` for `b > 0`, and the greatest `q` with `b * q >= a` for `b < 0`. |
| Slices.FloorMod | my_dataset.py:210-213 | Python's `%`: the remainder lies in `[0, b)` for positive `b` and in `(b, 0]` for negative `b`. |
| Slices.GetLength | my_dataset.py:202-213 | For a positive batch size, the result is the least `n` with `n * B >= sum`, i.e. `ceil(sum / B)`, and exactly `sum / B` when `B` divides the sum. For a negative batch size it is what Python's floor arithmetic gives. |
| Slices.CeilingBatches | my_dataset.py:210-213 | Helper for `Slices.GetLength`: the Python branch on `sum % B` yields the ceiling for positive `B` and `-(sum / -B)` for negative `B`. |

## Left out

- Voxel values. Loading NIfTI files, normalisation, resizing, rotation and the values the `minimum` pad mode writes are library numerics. Steps are tokens, and volumes are shapes.
- Where `DivisiblePadd` places the padding inside the depth axis. This is library behaviour; an entry is identified by its index in the padded volume.
- `os.listdir`. The listing and its order are an input sequence.
- Manifest writing (`np.savetxt`) and every `print`. These are I/O; the manifests are modelled as the record lists that would be written.
- `check_volumes` and `check_batch_data`. These are diagnostics that load data and print. The name recovery of `check_volumes` is modelled by `PatientName`; `check_batch_data` recovers no name.
- PatchIterd/GridPatchDataset patch extraction and DataLoader batching, workers and pinning. These are library and concurrency plumbing.
- The wiring functions (`load_volumes`, `load_batch_slices`, `load_batch_slices3D`, `myslicesloader`, `mydataloader`, `mydataloader_3d`, `get_train_val_loaders`). They only compose library objects; this includes `mydataloader_3d` passing the training manifest name for both manifests.
- `testdata.py`. It is a driver script with a fixed local path and prints only.
- Slices.GetLength: requires a non-zero batch size, because Python raises `ZeroDivisionError` there and the model does not represent that crash.
- Transforms.GetTransforms: its `print` of the chosen normalisation is not modelled.
