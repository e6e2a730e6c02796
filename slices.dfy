/** The eager slice materialiser (`transform_datasets_to_2d`) and the batch
    count of a volume dataset (`get_length`). A loaded volume is modelled by
    its shape only; a 2D entry by the sample it comes from and its depth
    index. Loading the files is outside the model: the shapes `LoadImaged`
    would return are passed in, one per sample. */
module Slices {
  import opened FileList
  import opened Patients

  /** The shape of a volume as loaded without forcing a channel axis:
      (width, height, depth), depth last. */
  datatype Shape = Shape(width: nat, height: nat, depth: nat)

  /** The image and label shapes loaded for one sample. */
  datatype Loaded = Loaded(imageShape: Shape, labelShape: Shape)

  /** One 2D entry: depth index `z` of sample number `sample` (its image
      and its label cross-section). */
  datatype Slice = Slice(sample: nat, z: nat)

  /** One row of a shape manifest. */
  datatype ShapeRecord = ShapeRecord(patient: string, shape: Shape)

  datatype Split = Train | Val

  /** The slice loop indexes the label at every depth index of the padded
      image; a label that is shallower raises an index error there. */
  datatype SliceError = LabelTooShallow(split: Split, sample: nat, z: nat)

  datatype Result<T> = Ok(value: T) | Err(error: SliceError)

  /** What one split's loop produces: the 2D entries, the running slice
      total and the per-patient shape records. */
  datatype SplitSlices = SplitSlices(slices: seq<Slice>, total: nat, shapes: seq<ShapeRecord>)

  /** The six results of `transform_datasets_to_2d`. */
  datatype Materialized = Materialized(
    trainDs2d: seq<Slice>, valDs2d: seq<Slice>,
    allSlicesTrain: nat, allSlicesVal: nat,
    shapeListTrain: seq<ShapeRecord>, shapeListVal: seq<ShapeRecord>)

  // ---------------------------------------------------------------------
  // Depth padding

  /** The depth after `DivisiblePadd(k=(-1, batch_size))`: rounded up to a
      multiple of `batch_size`; a non-positive factor leaves it unchanged. */
  function PaddedDepth(d: nat, k: int): nat {
    if k > 0 then RoundUp(d, k) else d
  }

  /** `d` rounded up to a multiple of `k`, one step of `k` at a time. */
  function RoundUp(d: nat, k: nat): nat
    requires k > 0
  {
    if d == 0 then 0 else if d <= k then k else k + RoundUp(d - k, k)
  }

  /** `RoundUp` is `ceil(d / k) * k`, the closed form MONAI computes. */
  lemma {:induction false} RoundUpClosedForm(d: nat, k: nat)
    requires k > 0
    ensures RoundUp(d, k) == (if d % k == 0 then d / k else d / k + 1) * k
  {
    if d > k {
      RoundUpClosedForm(d - k, k);
      DivModShift(d - k, k);
    } else if 0 < d < k {
      assert d / k == 0 && d % k == d;
    } else if d == k {
      assert d / k == 1 && d % k == 0;
    }
  }

  /** Multiplication distributes over subtraction. */
  lemma MulSub(p: int, q: int, k: int)
    ensures (p - q) * k == p * k - q * k
  {
  }

  /** A positive multiple of `k` is at least `k`. */
  lemma MulAtLeast(a: int, k: int)
    requires a >= 1 && k > 0
    ensures a * k >= k
  {
  }

  /** Quotient and remainder are determined by `x == q * k + r, 0 <= r < k`. */
  lemma DivModUnique(x: int, k: int, q: int, r: int)
    requires k > 0 && 0 <= r < k && x == q * k + r
    ensures x / k == q && x % k == r
  {
    var q', r' := x / k, x % k;
    assert x == q' * k + r';
    if q' < q {
      MulSub(q, q', k);
      MulAtLeast(q - q', k);
    } else if q' > q {
      MulSub(q', q, k);
      MulAtLeast(q' - q, k);
    }
  }

  /** Adding `k` adds one to the quotient and keeps the remainder. */
  lemma DivModShift(a: nat, k: nat)
    requires k > 0
    ensures (a + k) / k == a / k + 1 && (a + k) % k == a % k
  {
    assert a == (a / k) * k + a % k;
    MulSub(a / k + 1, 1, k);
    DivModUnique(a + k, k, a / k + 1, a % k);
  }

  /** The sum of two multiples of `k` is one. */
  lemma MultipleSum(a: int, b: int, k: int)
    requires k > 0 && a % k == 0 && b % k == 0
    ensures (a + b) % k == 0
  {
    assert a == (a / k) * k && b == (b / k) * k;
    MulSub(a / k + b / k, b / k, k);
    DivModUnique(a + b, k, a / k + b / k, 0);
  }

  /** With a positive batch size the padded depth is the smallest multiple
      of it that is at least the raw depth; an already divisible depth is
      not padded. */
  lemma {:induction false} RoundUpSpec(d: nat, k: nat)
    requires k > 0
    ensures RoundUp(d, k) % k == 0
    ensures d <= RoundUp(d, k) < d + k
    ensures d % k == 0 ==> RoundUp(d, k) == d
    ensures forall m: nat :: d <= m && m % k == 0 ==> RoundUp(d, k) <= m
  {
    if d > k {
      RoundUpSpec(d - k, k);
      DivModShift(RoundUp(d - k, k), k);
      DivModShift(d - k, k);
      forall m: nat | d <= m && m % k == 0
        ensures RoundUp(d, k) <= m
      {
        DivModShift(m - k, k);
      }
    } else if d > 0 {
      assert k % k == 0;
      forall m: nat | d <= m && m % k == 0
        ensures k <= m
      {
        if m < k {
          DivModUnique(m, k, 0, m);
        }
      }
      if d < k {
        DivModUnique(d, k, 0, d);
      }
      DivModUnique(k, k, 1, 0);
    }
  }

  /** The shape after the padding: the first axis (taken as the channel
      axis, since no channel axis was added) and the height (factor -1) are
      kept, the depth is padded. */
  function PadShape(s: Shape, batchSize: int): Shape {
    Shape(s.width, s.height, PaddedDepth(s.depth, batchSize))
  }

  /** `DivisiblePadd(k=(-1, batch_size))` changes only the depth: to the
      smallest multiple of a positive batch size that is at least the raw
      depth, and not at all for a non-positive one. */
  lemma PadShapeSpec(s: Shape, batchSize: int)
    ensures PadShape(s, batchSize).width == s.width && PadShape(s, batchSize).height == s.height
    ensures batchSize > 0 ==>
      PadShape(s, batchSize).depth % batchSize == 0 &&
      s.depth <= PadShape(s, batchSize).depth < s.depth + batchSize &&
      (s.depth % batchSize == 0 ==> PadShape(s, batchSize).depth == s.depth) &&
      (forall m: nat :: s.depth <= m && m % batchSize == 0 ==> PadShape(s, batchSize).depth <= m)
    ensures batchSize <= 0 ==> PadShape(s, batchSize) == s
  {
    if batchSize > 0 {
      RoundUpSpec(s.depth, batchSize);
    }
  }

  function ImageDepth(l: Loaded, batchSize: int): nat {
    PaddedDepth(l.imageShape.depth, batchSize)
  }

  function LabelDepth(l: Loaded, batchSize: int): nat {
    PaddedDepth(l.labelShape.depth, batchSize)
  }

  /** The label can be indexed at every depth index of the padded image. */
  predicate Fits(l: Loaded, batchSize: int) {
    ImageDepth(l, batchSize) <= LabelDepth(l, batchSize)
  }

  predicate AllFit(loaded: seq<Loaded>, batchSize: int) {
    forall n :: 0 <= n < |loaded| ==> Fits(loaded[n], batchSize)
  }

  /** `e` is the error the slice loop raises for this split: at the first
      sample whose label does not fit, at the first depth index the label
      lacks. */
  predicate IsFirstFailure(split: Split, loaded: seq<Loaded>, batchSize: int, e: SliceError) {
    e.split == split && e.sample < |loaded| &&
    !Fits(loaded[e.sample], batchSize) &&
    (forall j :: 0 <= j < e.sample ==> Fits(loaded[j], batchSize)) &&
    e.z == LabelDepth(loaded[e.sample], batchSize)
  }

  // ---------------------------------------------------------------------
  // The specification of the slice list

  /** The entries of one volume: depth indices 0 .. depth-1, ascending. */
  function VolumeSlices(sample: nat, depth: nat): seq<Slice> {
    seq(depth, z requires 0 <= z < depth => Slice(sample, z))
  }

  /** The padded image depth of every sample: how many entries each
      volume contributes. */
  function PaddedDepths(loaded: seq<Loaded>, batchSize: int): (r: seq<nat>)
    ensures |r| == |loaded|
  {
    seq(|loaded|, n requires 0 <= n < |loaded| => ImageDepth(loaded[n], batchSize))
  }

  /** The entries of the first `n` volumes, volume after volume. */
  function SlicesUpTo(depths: seq<nat>, n: nat): seq<Slice>
    requires n <= |depths|
  {
    if n == 0 then [] else SlicesUpTo(depths, n - 1) + VolumeSlices(n - 1, depths[n - 1])
  }

  /** The summed depths of the first `n` volumes. */
  function DepthSum(depths: seq<nat>, n: nat): nat
    requires n <= |depths|
  {
    if n == 0 then 0 else DepthSum(depths, n - 1) + depths[n - 1]
  }

  /** The shape records of the first `n` samples: the patient name and the
      padded image shape of each, in sample order. */
  function ShapeRecords(ds: seq<Sample>, loaded: seq<Loaded>, batchSize: int, n: nat): seq<ShapeRecord>
    requires |loaded| == |ds| && n <= |ds|
  {
    if n == 0 then [] else
      ShapeRecords(ds, loaded, batchSize, n - 1)
        + [ShapeRecord(PatientName(ds[n - 1]), PadShape(loaded[n - 1].imageShape, batchSize))]
  }

  /** One shape record per sample, in sample order. */
  lemma {:induction false} ShapeRecordsSpec(ds: seq<Sample>, loaded: seq<Loaded>, batchSize: int, n: nat)
    requires |loaded| == |ds| && n <= |ds|
    ensures |ShapeRecords(ds, loaded, batchSize, n)| == n
    ensures forall k :: 0 <= k < n ==>
      ShapeRecords(ds, loaded, batchSize, n)[k]
        == ShapeRecord(PatientName(ds[k]), PadShape(loaded[k].imageShape, batchSize))
  {
    if n > 0 {
      ShapeRecordsSpec(ds, loaded, batchSize, n - 1);
      var prev := ShapeRecords(ds, loaded, batchSize, n - 1);
      var last := ShapeRecord(PatientName(ds[n - 1]), PadShape(loaded[n - 1].imageShape, batchSize));
      assert ShapeRecords(ds, loaded, batchSize, n) == prev + [last];
      forall k | 0 <= k < n - 1
        ensures (prev + [last])[k] == prev[k]
      {
      }
    }
  }

  lemma {:induction false} DepthSumMonotone(depths: seq<nat>, m: nat, n: nat)
    requires m < n <= |depths|
    ensures DepthSum(depths, m) + depths[m] <= DepthSum(depths, n)
    decreases n
  {
    if m < n - 1 {
      DepthSumMonotone(depths, m, n - 1);
    }
  }

  lemma {:induction false} SlicesUpToLength(depths: seq<nat>, n: nat)
    requires n <= |depths|
    ensures |SlicesUpTo(depths, n)| == DepthSum(depths, n)
  {
    if n > 0 {
      SlicesUpToLength(depths, n - 1);
    }
  }

  /** Entry `DepthSum(m) + z` is depth index `z` of volume `m`. */
  lemma {:induction false} SlicesUpToAt(depths: seq<nat>, n: nat, m: nat, z: nat)
    requires m < n <= |depths| && z < depths[m]
    ensures DepthSum(depths, m) + z < |SlicesUpTo(depths, n)|
    ensures SlicesUpTo(depths, n)[DepthSum(depths, m) + z] == Slice(m, z)
  {
    SlicesUpToLength(depths, n - 1);
    var prev := SlicesUpTo(depths, n - 1);
    if m < n - 1 {
      SlicesUpToAt(depths, n - 1, m, z);
    } else {
      assert SlicesUpTo(depths, n)[DepthSum(depths, m) + z] == VolumeSlices(n - 1, depths[n - 1])[z];
    }
  }

  /** The entry list of the first `n` volumes has as many entries as their
      depths add up to, and entry `DepthSum(m) + z` is depth index `z` of
      volume `m`: volumes in input order, each in ascending depth. */
  lemma SlicesUpToSpec(depths: seq<nat>, n: nat)
    requires n <= |depths|
    ensures |SlicesUpTo(depths, n)| == DepthSum(depths, n)
    ensures forall m: nat :: m < n ==> DepthSum(depths, m) + depths[m] <= DepthSum(depths, n)
    ensures forall m: nat, z: nat :: m < n && z < depths[m] ==>
      SlicesUpTo(depths, n)[DepthSum(depths, m) + z] == Slice(m, z)
  {
    SlicesUpToLength(depths, n);
    forall m: nat | m < n
      ensures DepthSum(depths, m) + depths[m] <= DepthSum(depths, n)
    {
      DepthSumMonotone(depths, m, n);
    }
    forall m: nat, z: nat | m < n && z < depths[m]
      ensures SlicesUpTo(depths, n)[DepthSum(depths, m) + z] == Slice(m, z)
    {
      SlicesUpToAt(depths, n, m, z);
    }
  }

  /** Every entry is a depth index inside its own volume. */
  lemma {:induction false} SlicesUpToInRange(depths: seq<nat>, n: nat)
    requires n <= |depths|
    ensures forall i :: 0 <= i < |SlicesUpTo(depths, n)| ==>
      SlicesUpTo(depths, n)[i].sample < n &&
      SlicesUpTo(depths, n)[i].z < depths[SlicesUpTo(depths, n)[i].sample]
  {
    if n > 0 {
      SlicesUpToInRange(depths, n - 1);
    }
  }

  /** With a positive batch size every padded depth, and so the total
      number of 2D entries, is a whole number of batches. */
  lemma SliceCountIsWholeBatches(loaded: seq<Loaded>, batchSize: int)
    requires batchSize > 0
    ensures |SlicesUpTo(PaddedDepths(loaded, batchSize), |loaded|)| % batchSize == 0
  {
    var depths := PaddedDepths(loaded, batchSize);
    forall i | 0 <= i < |depths|
      ensures depths[i] % batchSize == 0
    {
      RoundUpSpec(loaded[i].imageShape.depth, batchSize);
    }
    SlicesUpToSpec(depths, |loaded|);
    DepthSumWholeBatches(depths, batchSize, |loaded|);
  }

  lemma {:induction false} DepthSumWholeBatches(depths: seq<nat>, k: int, n: nat)
    requires k > 0 && n <= |depths|
    requires forall i :: 0 <= i < |depths| ==> depths[i] % k == 0
    ensures DepthSum(depths, n) % k == 0
  {
    if n > 0 {
      DepthSumWholeBatches(depths, k, n - 1);
      MultipleSum(DepthSum(depths, n - 1), depths[n - 1], k);
    }
  }

  // ---------------------------------------------------------------------
  // The loops

  /** The inner loop over one volume: one entry per depth index of the
      padded image. Indexing the label at a depth index it lacks fails,
      and the first such index is the label's depth. */
  method VolumeLoop(sample: nat, numSlices: nat, labelDepth: nat)
    returns (vol: seq<Slice>, fits: bool)
    ensures fits <==> numSlices <= labelDepth
    ensures fits ==> vol == VolumeSlices(sample, numSlices)
  {
    vol := [];
    for z := 0 to numSlices
      invariant vol == VolumeSlices(sample, z)
      invariant z <= labelDepth
    {
      if z >= labelDepth {
        return [], false;
      }
      assert VolumeSlices(sample, z + 1) == VolumeSlices(sample, z) + [Slice(sample, z)];
      vol := vol + [Slice(sample, z)];
    }
    fits := true;
  }

  /** One split's loop of `transform_datasets_to_2d`: pad each volume's
      depth, record the patient and the padded shape, append one entry per
      depth index and add the depth to the running total. */
  method MaterializeSplit(split: Split, ds: seq<Sample>, loaded: seq<Loaded>, batchSize: int)
    returns (r: Result<SplitSlices>)
    requires |loaded| == |ds|
    ensures r.Ok? <==> AllFit(loaded, batchSize)
    ensures r.Ok? ==> r.value.slices == SlicesUpTo(PaddedDepths(loaded, batchSize), |loaded|)
    ensures r.Ok? ==> r.value.total == |r.value.slices|
    ensures r.Ok? ==> r.value.shapes == ShapeRecords(ds, loaded, batchSize, |ds|)
    ensures r.Err? ==> IsFirstFailure(split, loaded, batchSize, r.error)
  {
    ghost var depths := PaddedDepths(loaded, batchSize);
    var slices: seq<Slice> := [];
    var total: nat := 0;
    var shapes: seq<ShapeRecord> := [];
    for n := 0 to |ds|
      invariant slices == SlicesUpTo(depths, n)
      invariant total == |slices|
      invariant shapes == ShapeRecords(ds, loaded, batchSize, n)
      invariant forall j :: 0 <= j < n ==> Fits(loaded[j], batchSize)
    {
      var padded := PadShape(loaded[n].imageShape, batchSize);
      var labelPadded := PadShape(loaded[n].labelShape, batchSize);
      var name := PatientName(ds[n]);
      var numSlices := padded.depth;
      shapes := shapes + [ShapeRecord(name, padded)];
      assert shapes == ShapeRecords(ds, loaded, batchSize, n + 1);
      var vol, fits := VolumeLoop(n, numSlices, labelPadded.depth);
      assert numSlices == ImageDepth(loaded[n], batchSize) == depths[n];
      assert labelPadded.depth == LabelDepth(loaded[n], batchSize);
      if !fits {
        return Err(LabelTooShallow(split, n, labelPadded.depth));
      }
      assert Fits(loaded[n], batchSize);
      slices := slices + vol;
      assert slices == SlicesUpTo(depths, n + 1);
      total := total + numSlices;
    }
    return Ok(SplitSlices(slices, total, shapes));
  }

  /** `transform_datasets_to_2d`: the training split, then the validation
      split. Writing the manifests is not part of this model. */
  method TransformDatasetsTo2D(trainDs: seq<Sample>, trainLoaded: seq<Loaded>,
                               valDs: seq<Sample>, valLoaded: seq<Loaded>, batchSize: int)
    returns (r: Result<Materialized>)
    requires |trainLoaded| == |trainDs| && |valLoaded| == |valDs|
    ensures r.Ok? <==> AllFit(trainLoaded, batchSize) && AllFit(valLoaded, batchSize)
    ensures r.Ok? ==>
      r.value.trainDs2d == SlicesUpTo(PaddedDepths(trainLoaded, batchSize), |trainLoaded|) &&
      r.value.valDs2d == SlicesUpTo(PaddedDepths(valLoaded, batchSize), |valLoaded|) &&
      r.value.allSlicesTrain == |r.value.trainDs2d| &&
      r.value.allSlicesVal == |r.value.valDs2d| &&
      r.value.shapeListTrain == ShapeRecords(trainDs, trainLoaded, batchSize, |trainDs|) &&
      r.value.shapeListVal == ShapeRecords(valDs, valLoaded, batchSize, |valDs|)
    ensures r.Err? && !AllFit(trainLoaded, batchSize) ==> IsFirstFailure(Train, trainLoaded, batchSize, r.error)
    ensures r.Err? && AllFit(trainLoaded, batchSize) ==> IsFirstFailure(Val, valLoaded, batchSize, r.error)
  {
    var train := MaterializeSplit(Train, trainDs, trainLoaded, batchSize);
    if train.Err? {
      return Err(train.error);
    }
    var val := MaterializeSplit(Val, valDs, valLoaded, batchSize);
    if val.Err? {
      return Err(val.error);
    }
    var t, v := train.value, val.value;
    return Ok(Materialized(t.slices, v.slices, t.total, v.total, t.shapes, v.shapes));
  }

  // ---------------------------------------------------------------------
  // get_length

  /** Python's `//`: rounds toward negative infinity. */
  function FloorDiv(a: int, b: int): int
    requires b != 0
  {
    if b > 0 then a / b else (-a) / (-b)
  }

  /** `FloorDiv` is the floor of the quotient for either sign of the divisor:
      the greatest `q` with `b * q <= a` when `b > 0`, and the greatest `q`
      with `b * q >= a` when `b < 0`. */
  lemma FloorDivSpec(a: int, b: int)
    requires b != 0
    ensures b > 0 ==> b * FloorDiv(a, b) <= a < b * FloorDiv(a, b) + b
    ensures b < 0 ==> b * FloorDiv(a, b) + b < a <= b * FloorDiv(a, b)
  {
    var q := FloorDiv(a, b);
    if b > 0 {
      assert a == b * q + a % b;
    } else {
      var c := -b;
      assert -a == c * q + (-a) % c;
      NegTimesNeg(c, -q);
      assert b * q == -(c * q);
    }
  }

  /** Python's `%`: the remainder takes the sign of the divisor. */
  function FloorMod(a: int, b: int): (r: int)
    requires b != 0
    ensures b > 0 ==> 0 <= r < b
    ensures b < 0 ==> b < r <= 0
  {
    a - b * FloorDiv(a, b)
  }

  /** `get_length(dataset, patch_batch_size)` with the last-axis extent of
      each item of the dataset passed in: the number of batches of
      `patch_batch_size` needed to cover all slices, i.e. the ceiling of
      the summed depths over the batch size. */
  method GetLength(depths: seq<nat>, patchBatchSize: int) returns (n: int)
    requires patchBatchSize != 0
    ensures patchBatchSize > 0 ==> n >= 0 && (n - 1) * patchBatchSize < DepthSum(depths, |depths|) <= n * patchBatchSize
    ensures patchBatchSize > 0 && DepthSum(depths, |depths|) % patchBatchSize == 0 ==> n * patchBatchSize == DepthSum(depths, |depths|)
    ensures patchBatchSize < 0 ==> n == -(DepthSum(depths, |depths|) / -patchBatchSize)
  {
    var sumNSlices := 0;
    for idx := 0 to |depths|
      invariant sumNSlices == DepthSum(depths, idx)
    {
      sumNSlices := sumNSlices + depths[idx];
    }
    if FloorMod(sumNSlices, patchBatchSize) == 0 {
      n := FloorDiv(sumNSlices, patchBatchSize);
    } else {
      n := FloorDiv(sumNSlices, patchBatchSize) + 1;
    }
    CeilingBatches(sumNSlices, patchBatchSize, n);
  }

  /** The arithmetic behind `GetLength`'s contract. */
  lemma CeilingBatches(s: nat, b: int, n: int)
    requires b != 0
    requires n == if FloorMod(s, b) == 0 then FloorDiv(s, b) else FloorDiv(s, b) + 1
    ensures b > 0 ==> n >= 0 && (n - 1) * b < s <= n * b
    ensures b > 0 && s % b == 0 ==> n * b == s
    ensures b < 0 ==> n == -(s / -b)
  {
    if b > 0 {
      CeilingPositive(s, b, n);
    } else {
      CeilingNegative(s, b, n);
    }
  }

  lemma CeilingPositive(s: nat, b: int, n: int)
    requires b > 0
    requires n == if s % b == 0 then s / b else s / b + 1
    ensures n >= 0 && (n - 1) * b < s <= n * b
    ensures s % b == 0 ==> n * b == s
  {
    var q := s / b;
    assert s == q * b + s % b;
    if s % b == 0 {
      MulSub(q, 1, b);
    } else {
      MulSub(q + 1, 1, b);
    }
  }

  lemma CeilingNegative(s: nat, b: int, n: int)
    requires b < 0
    requires n == if FloorMod(s, b) == 0 then FloorDiv(s, b) else FloorDiv(s, b) + 1
    ensures n == -(s / -b)
  {
    var c := -b;
    var q, r := s / c, s % c;
    assert s == q * c + r;
    var ns := -(s as int);
    var f := FloorDiv(s, b);
    assert f == ns / c;
    if r == 0 {
      MulSub(0, q, c);
      DivModUnique(ns, c, -q, 0);
      assert f == -q;
      NegTimesNeg(c, q);
      assert FloorMod(s, b) == s - b * f;
    } else {
      MulSub(0, q + 1, c);
      MulSub(q + 1, 1, c);
      DivModUnique(ns, c, -q - 1, c - r);
      assert f == -q - 1;
      NegTimesNeg(c, q + 1);
      assert FloorMod(s, b) == s - b * f;
    }
  }

  lemma NegTimesNeg(c: int, q: int)
    ensures (-c) * (-q) == c * q
  {
  }
}
