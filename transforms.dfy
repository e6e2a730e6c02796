/** The volume-level preprocessing pipeline of `get_transforms`, as an
    ordered list of step tokens. What each step does to voxel values is not
    part of this model; only which steps appear, in which order and with
    which parameters. */
module Transforms {

  /** One axis of a target size: a fixed extent, or `None` (keep the axis). */
  datatype Dim = Extent(n: int) | Keep

  /** The steps, each applied to both the `image` and the `label` key. */
  datatype Step =
    | LoadImage
    | EnsureChannelFirst
      /** z-score normalisation (`NormalizeIntensityd`). */
    | NormalizeIntensity(nonzero: bool, channelWise: bool)
      /** min-max rescaling (`ScaleIntensityd`). */
    | ScaleIntensity(minv: real, maxv: real)
    | ResizeWithPadOrCrop(spatialSize: seq<Dim>, mode: string)
    | Rotate90(k: int)
    | DivisiblePad(divisor: seq<Dim>, mode: string)

  /** The pad mode every padding step uses. */
  const PAD_MODE: string := "minimum"

  predicate IsNormalization(s: Step) {
    s.NormalizeIntensity? || s.ScaleIntensity?
  }

  /** How many intensity-normalisation steps a step list holds. */
  function NormalizationCount(steps: seq<Step>): nat {
    if steps == [] then 0
    else (if IsNormalization(steps[0]) then 1 else 0) + NormalizationCount(steps[1..])
  }

  /** The modes that add a normalisation step; any other string adds none. */
  predicate Normalizes(normalize: string) {
    normalize == "zscore" || normalize == "minmax"
  }

  /** The three closing steps every pipeline ends with. */
  function Tail(resizedSize: seq<Dim>, divSize: seq<Dim>): seq<Step> {
    [ResizeWithPadOrCrop(resizedSize, PAD_MODE), Rotate90(3), DivisiblePad(divSize, PAD_MODE)]
  }

  lemma {:induction false} NormalizationCountAppend(a: seq<Step>, b: seq<Step>)
    ensures NormalizationCount(a + b) == NormalizationCount(a) + NormalizationCount(b)
  {
    if a == [] {
      assert a + b == b;
    } else {
      assert (a + b)[1..] == a[1..] + b;
      NormalizationCountAppend(a[1..], b);
    }
  }

  /** A list of non-normalisation steps counts zero. */
  lemma {:induction false} NoNormalization(steps: seq<Step>)
    requires forall i :: 0 <= i < |steps| ==> !IsNormalization(steps[i])
    ensures NormalizationCount(steps) == 0
  {
    if steps != [] {
      NoNormalization(steps[1..]);
    }
  }

  /** `get_transforms(normalize, resized_size, div_size)`: load, channel
      first, then z-score for "zscore" or min-max to [-1, 1] for "minmax"
      (nothing for "none" or any other string), then resize/pad/crop,
      rotate by three quarter turns and pad to a multiple of `div_size`. */
  method GetTransforms(normalize: string, resizedSize: seq<Dim>, divSize: seq<Dim>)
    returns (steps: seq<Step>)
    ensures |steps| == if Normalizes(normalize) then 6 else 5
    ensures steps[0] == LoadImage && steps[1] == EnsureChannelFirst
    ensures steps[|steps| - 3..] == Tail(resizedSize, divSize)
    ensures normalize == "zscore" ==> steps[2] == NormalizeIntensity(false, true)
    ensures normalize == "minmax" ==> steps[2] == ScaleIntensity(-1.0, 1.0)
    ensures NormalizationCount(steps) == if Normalizes(normalize) then 1 else 0
  {
    steps := [];
    steps := steps + [LoadImage];
    steps := steps + [EnsureChannelFirst];
    ghost var opening := steps;
    if normalize == "zscore" {
      steps := steps + [NormalizeIntensity(false, true)];
    } else if normalize == "minmax" {
      steps := steps + [ScaleIntensity(-1.0, 1.0)];
    } else if normalize == "none" {
    }
    ghost var head := steps;
    ghost var norm := head[2..];
    assert head == opening + norm;
    NoNormalization(opening);
    NoNormalization(Tail(resizedSize, divSize));
    NormalizationCountAppend(opening, norm);
    assert NormalizationCount(norm) == if Normalizes(normalize) then 1 else 0 by {
      if norm != [] {
        assert norm[1..] == [];
      }
    }
    steps := steps + [ResizeWithPadOrCrop(resizedSize, PAD_MODE)];
    steps := steps + [Rotate90(3)];
    steps := steps + [DivisiblePad(divSize, PAD_MODE)];
    assert steps == head + Tail(resizedSize, divSize);
    NormalizationCountAppend(head, Tail(resizedSize, divSize));
  }
}
