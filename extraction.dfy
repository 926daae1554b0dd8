/**
 * Reading boxes out of flat buffers. A prior record is 8 scalars (four
 * coordinates, then four variances); a label record is 6 scalars (class
 * label, four coordinates, a trailing flag). Each reader appends what it
 * reads to the vector it is given.
 */
module Extraction {
  import opened Geometry

  /** The coordinates of prior record k. */
  function PriorBoxAt(priorData: seq<real>, k: nat): NormalizedBBox
    requires 8 * k + 4 <= |priorData|
  {
    NormalizedBBox(priorData[8 * k], priorData[8 * k + 1], priorData[8 * k + 2], priorData[8 * k + 3])
  }

  /** The four variances of prior record k. */
  function PriorVarAt(priorData: seq<real>, k: nat): seq<real>
    requires 8 * k + 8 <= |priorData|
  {
    [priorData[8 * k + 4], priorData[8 * k + 5], priorData[8 * k + 6], priorData[8 * k + 7]]
  }

  /** The coordinates of label record k (offsets 1 to 4 of the record). */
  function LabelBoxAt(labelData: seq<real>, k: nat): NormalizedBBox
    requires 6 * k + 5 <= |labelData|
  {
    NormalizedBBox(labelData[6 * k + 1], labelData[6 * k + 2], labelData[6 * k + 3], labelData[6 * k + 4])
  }

  /** The boxes of the first n prior records. */
  function PriorBoxes(priorData: seq<real>, n: nat): seq<NormalizedBBox>
    requires 8 * n <= |priorData| + 4
  {
    seq(n, k requires 0 <= k < n => PriorBoxAt(priorData, k))
  }

  /** The boxes of the first n label records. */
  function LabelBoxes(labelData: seq<real>, n: nat): seq<NormalizedBBox>
    requires 6 * n <= |labelData| + 1
  {
    seq(n, k requires 0 <= k < n => LabelBoxAt(labelData, k))
  }

  /** getBBoxFromPriorData: append the boxes of numBBoxes prior records. */
  method GetBBoxFromPriorData(priorData: seq<real>, numBBoxes: nat, bboxVec: seq<NormalizedBBox>)
    returns (out: seq<NormalizedBBox>)
    requires 8 * numBBoxes <= |priorData| + 4
    ensures |out| == |bboxVec| + numBBoxes
    ensures out[..|bboxVec|] == bboxVec
    ensures forall k :: |bboxVec| <= k < |out| ==> out[k] == PriorBoxAt(priorData, k - |bboxVec|)
    ensures out == bboxVec + PriorBoxes(priorData, numBBoxes)
  {
    var outOffset := |bboxVec|;
    out := bboxVec + seq(numBBoxes, _ => NormalizedBBox(0.0, 0.0, 0.0, 0.0));
    for i := 0 to numBBoxes
      invariant |out| == outOffset + numBBoxes
      invariant out[..outOffset] == bboxVec
      invariant forall k :: outOffset <= k < outOffset + i ==> out[k] == PriorBoxAt(priorData, k - outOffset)
    {
      var bbox := NormalizedBBox(priorData[i * 8], priorData[i * 8 + 1], priorData[i * 8 + 2], priorData[i * 8 + 3]);
      out := out[outOffset + i := bbox];
    }
    assert out == bboxVec + PriorBoxes(priorData, numBBoxes) by {
      assert out[..outOffset] + out[outOffset..] == out;
      assert out[outOffset..] == PriorBoxes(priorData, numBBoxes);
    }
  }

  /** getBBoxVarFromPriorData: append the variance vectors of num prior records. */
  method GetBBoxVarFromPriorData(priorData: seq<real>, num: nat, varVec: seq<seq<real>>)
    returns (out: seq<seq<real>>)
    requires 8 * num <= |priorData|
    ensures |out| == |varVec| + num
    ensures out[..|varVec|] == varVec
    ensures forall k :: |varVec| <= k < |out| ==> out[k] == PriorVarAt(priorData, k - |varVec|)
  {
    var outOffset := |varVec|;
    out := varVec + seq(num, _ => []);
    for i := 0 to num
      invariant |out| == outOffset + num
      invariant out[..outOffset] == varVec
      invariant forall k :: outOffset <= k < outOffset + i ==> out[k] == PriorVarAt(priorData, k - outOffset)
    {
      var v: seq<real> := [];
      v := v + [priorData[i * 8 + 4]];
      v := v + [priorData[i * 8 + 5]];
      v := v + [priorData[i * 8 + 6]];
      v := v + [priorData[i * 8 + 7]];
      out := out[outOffset + i := v];
    }
  }

  /** getBBoxFromLabelData: append the boxes of numBBoxes label records. */
  method GetBBoxFromLabelData(labelData: seq<real>, numBBoxes: nat, bboxVec: seq<NormalizedBBox>)
    returns (out: seq<NormalizedBBox>)
    requires 6 * numBBoxes <= |labelData| + 1
    ensures |out| == |bboxVec| + numBBoxes
    ensures out[..|bboxVec|] == bboxVec
    ensures forall k :: |bboxVec| <= k < |out| ==> out[k] == LabelBoxAt(labelData, k - |bboxVec|)
    ensures out == bboxVec + LabelBoxes(labelData, numBBoxes)
  {
    var outOffset := |bboxVec|;
    out := bboxVec + seq(numBBoxes, _ => NormalizedBBox(0.0, 0.0, 0.0, 0.0));
    for i := 0 to numBBoxes
      invariant |out| == outOffset + numBBoxes
      invariant out[..outOffset] == bboxVec
      invariant forall k :: outOffset <= k < outOffset + i ==> out[k] == LabelBoxAt(labelData, k - outOffset)
    {
      var bbox := NormalizedBBox(labelData[i * 6 + 1], labelData[i * 6 + 2], labelData[i * 6 + 3], labelData[i * 6 + 4]);
      out := out[outOffset + i := bbox];
    }
    assert out == bboxVec + LabelBoxes(labelData, numBBoxes) by {
      assert out[..outOffset] + out[outOffset..] == out;
      assert out[outOffset..] == LabelBoxes(labelData, numBBoxes);
    }
  }
}
