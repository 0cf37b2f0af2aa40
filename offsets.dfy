/** The two address operands of a raw buffer access: the per-lane voffset,
    built from the indices and strides, and the uniform soffset, built from
    the caller's sgpr offset and the memref's offset. */
module BufferOffsets {
  import opened Ir
  import opened Arith32

  /** The i32 byte stride of one dimension: a dynamic stride is read from the
      runtime descriptor and multiplied by the byte width in the generated
      code; a static one is folded into an i32 constant. */
  function StrideBytes(stride: Extent, runtimeStride: int, byteWidth: nat): U32 {
    match stride
    case Dynamic => Wrap(runtimeStride * byteWidth)
    case Static(s) => Wrap(s * byteWidth)
  }

  /** The byte stride as a mathematical integer, before any truncation. */
  function ExactStrideBytes(stride: Extent, runtimeStride: int, byteWidth: nat): int {
    match stride
    case Dynamic => runtimeStride * byteWidth
    case Static(s) => s * byteWidth
  }

  /** Adds `v` to an accumulator that may still be the null Value, in which
      case `v` becomes the accumulator. */
  function Accumulate(acc: Option<U32>, v: U32): Option<U32> {
    match acc
    case None => Some(v)
    case Some(a) => Some(Add(a, v))
  }

  /** The i32 sum of index[i] * strideBytes(i) over the first k dimensions,
      in the order the lowering emits the adds; None for k = 0. */
  function IndexTerms(indices: seq<U32>, strides: seq<Extent>, runtimeStrides: seq<int>, byteWidth: nat, k: nat): Option<U32>
    requires k <= |indices| == |strides| == |runtimeStrides|
  {
    if k == 0 then None
    else
      Accumulate(IndexTerms(indices, strides, runtimeStrides, byteWidth, k - 1),
                 Mul(indices[k - 1], StrideBytes(strides[k - 1], runtimeStrides[k - 1], byteWidth)))
  }

  /** voffset: the index terms, plus indexOffset * byteWidth (an i32
      constant) when the op has an index offset. None when there are neither
      indices nor an index offset. */
  function VOffset(indices: seq<U32>, strides: seq<Extent>, runtimeStrides: seq<int>, byteWidth: nat,
                   indexOffset: Option<U32>): (v: Option<U32>)
    requires |indices| == |strides| == |runtimeStrides|
    ensures v.Some? <==> |indices| > 0 || indexOffset.Some?
    ensures |indices| == 0 && indexOffset.Some? ==> v == Some(Wrap(indexOffset.value * byteWidth))
  {
    var terms := IndexTerms(indices, strides, runtimeStrides, byteWidth, |indices|);
    match indexOffset
    case None => terms
    case Some(io) => Accumulate(terms, Wrap(io * byteWidth))
  }

  /** The byte offset of the first k indices, over the integers. */
  function ByteOffset(indices: seq<U32>, strides: seq<Extent>, runtimeStrides: seq<int>, byteWidth: nat, k: nat): int
    requires k <= |indices| == |strides| == |runtimeStrides|
  {
    if k == 0 then 0
    else
      ByteOffset(indices, strides, runtimeStrides, byteWidth, k - 1)
        + indices[k - 1] * ExactStrideBytes(strides[k - 1], runtimeStrides[k - 1], byteWidth)
  }

  lemma StrideBytesIsExact(stride: Extent, runtimeStride: int, byteWidth: nat)
    ensures StrideBytes(stride, runtimeStride, byteWidth) == Wrap(ExactStrideBytes(stride, runtimeStride, byteWidth))
  {
  }

  /** The i32 chain of multiplies and adds computes the integer byte offset
      modulo 2^32. */
  lemma {:induction false} IndexTermsAreByteOffset(indices: seq<U32>, strides: seq<Extent>, runtimeStrides: seq<int>,
                                                    byteWidth: nat, k: nat)
    requires k <= |indices| == |strides| == |runtimeStrides|
    ensures IndexTerms(indices, strides, runtimeStrides, byteWidth, k).Some? <==> k > 0
    ensures k > 0 ==> IndexTerms(indices, strides, runtimeStrides, byteWidth, k).value
                      == Wrap(ByteOffset(indices, strides, runtimeStrides, byteWidth, k))
  {
    if k > 0 {
      IndexTermsAreByteOffset(indices, strides, runtimeStrides, byteWidth, k - 1);
      var x := indices[k - 1];
      var exact := ExactStrideBytes(strides[k - 1], runtimeStrides[k - 1], byteWidth);
      StrideBytesIsExact(strides[k - 1], runtimeStrides[k - 1], byteWidth);
      WrapIdentity(x);
      var prev := ByteOffset(indices, strides, runtimeStrides, byteWidth, k - 1);
      assert ByteOffset(indices, strides, runtimeStrides, byteWidth, k) == prev + x * exact;
      var term := Mul(Wrap(x), Wrap(exact));
      assert term == Mul(x, StrideBytes(strides[k - 1], runtimeStrides[k - 1], byteWidth));
      if k == 1 {
        assert prev == 0;
        MulAddStep(0, x, exact);
        WrapIdentity(term);
        assert Add(Wrap(0), term) == term;
      } else {
        MulAddStep(prev, x, exact);
      }
    }
  }

  /** voffset is the byte address of the indexed element relative to the
      buffer base (index offset included), modulo 2^32; it is absent exactly
      when there is nothing to add. */
  lemma VOffsetIsByteOffset(indices: seq<U32>, strides: seq<Extent>, runtimeStrides: seq<int>, byteWidth: nat,
                            indexOffset: Option<U32>)
    requires |indices| == |strides| == |runtimeStrides|
    ensures VOffset(indices, strides, runtimeStrides, byteWidth, indexOffset).Some?
              == (|indices| > 0 || indexOffset.Some?)
    ensures VOffset(indices, strides, runtimeStrides, byteWidth, indexOffset).Some? ==>
              VOffset(indices, strides, runtimeStrides, byteWidth, indexOffset).value
                == Wrap(ByteOffset(indices, strides, runtimeStrides, byteWidth, |indices|)
                        + (if indexOffset.Some? then indexOffset.value else 0) * byteWidth)
  {
    var n := |indices|;
    IndexTermsAreByteOffset(indices, strides, runtimeStrides, byteWidth, n);
    var sum := ByteOffset(indices, strides, runtimeStrides, byteWidth, n);
    if indexOffset.Some? {
      var extra := indexOffset.value * byteWidth;
      if n > 0 {
        AddWraps(sum, extra);
      } else {
        assert sum == 0;
      }
    }
  }

  /** The loop of the lowering over the op's indices, followed by the index
      offset: builds voffset. */
  method ComputeVOffset(indices: seq<U32>, strides: seq<Extent>, runtimeStrides: seq<int>, byteWidth: nat,
                        indexOffset: Option<U32>) returns (voffset: Option<U32>)
    requires |indices| == |strides| == |runtimeStrides|
    ensures voffset == VOffset(indices, strides, runtimeStrides, byteWidth, indexOffset)
  {
    voffset := None;
    var i := 0;
    while i < |indices|
      invariant i <= |indices|
      invariant voffset == IndexTerms(indices, strides, runtimeStrides, byteWidth, i)
    {
      var strideOp: U32;
      if strides[i].Dynamic? {
        strideOp := Wrap(runtimeStrides[i] * byteWidth);
      } else {
        strideOp := Wrap(strides[i].value * byteWidth);
      }
      var index := Mul(indices[i], strideOp);
      voffset := if voffset.Some? then Some(Add(voffset.value, index)) else Some(index);
      i := i + 1;
    }
    if indexOffset.Some? {
      var extraOffsetConst := Wrap(indexOffset.value * byteWidth);
      voffset := if voffset.Some? then Some(Add(voffset.value, extraOffsetConst)) else Some(extraOffsetConst);
    }
  }

  /** soffset: the caller's sgpr offset (or 0), plus the memref's runtime
      offset when the layout offset is dynamic, or plus the static offset
      when it is positive. The offset is added as is, in elements. */
  function SOffset(sgprOffset: Option<U32>, offset: Extent, runtimeOffset: int): (s: U32)
    ensures offset.Static? && offset.value <= 0 ==> s == (if sgprOffset.Some? then sgprOffset.value else 0)
    ensures offset.Static? && offset.value >= 0 ==>
              s == Wrap((if sgprOffset.Some? then sgprOffset.value else 0) + offset.value)
    ensures offset.Dynamic? ==>
              s == Wrap(runtimeOffset + (if sgprOffset.Some? then sgprOffset.value else 0))
  {
    var base: U32 := if sgprOffset.Some? then sgprOffset.value else 0;
    match offset
    case Dynamic => Add(Wrap(runtimeOffset), base)
    case Static(o) =>
      if o > 0 then Add(base, Wrap(o))
      else base
  }
}
