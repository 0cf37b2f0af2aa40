/** The 4 x i32 buffer resource descriptor built from a memref:
    bits 0-47 base address, bits 48-63 stride and swizzle controls (kept 0),
    word 2 the number of addressable bytes, word 3 format and control bits. */
module ResourceDescriptor {
  import opened Ir
  import opened Arith32

  const TWO16: int := 0x1_0000
  const TWO48: int := 0x1_0000_0000_0000

  /** Word 0: the pointer truncated to i32, i.e. its low 32 bits: what is
      left out is a whole number of 2^32 steps. */
  function Word0(ptr: U64): (w: U32)
    ensures ptr == (ptr / TWO32) * TWO32 + w
  {
    Wrap(ptr)
  }

  /** Word 1: the pointer shifted right by 32, truncated to i32, and masked
      with 0xffff so that no address bit reaches the stride and swizzle
      fields in bits 48-63 of the descriptor. (`x & 0xffff` is `x % 2^16`.) */
  function Word1(ptr: U64): (w: U32)
    ensures w < TWO16
  {
    Wrap(ptr / TWO32) % TWO16
  }

  /** Words 0 and 1 hold exactly the low 48 bits of the pointer. */
  lemma PointerSplit(ptr: U64)
    ensures Word0(ptr) == ptr % TWO32
    ensures Word1(ptr) == (ptr / TWO32) % TWO16
    ensures Word1(ptr) * TWO32 + Word0(ptr) == ptr % TWO48
  {
    var hi := ptr / TWO32;
    assert ptr == hi * TWO32 + Word0(ptr);
    assert hi < TWO32;
    WrapIdentity(hi);
    var q := hi / TWO16;
    assert hi == q * TWO16 + Word1(ptr);
    assert ptr == q * TWO48 + (Word1(ptr) * TWO32 + Word0(ptr));
  }

  /** Word 3: dst_sel ignored, data format 7 (float) at bit 12 and 4 (32 bit)
      at bit 15; on chipsets of major version 10 (RDNA) also the reserved
      bit 24 and the out-of-bounds select in bits 28-29. */
  function Word3(chipset: Chipset, boundsCheck: bool): (w: bv32)
    // bits 0-23 always hold only the two format fields
    ensures w & 0xFF_FFFF == 0x27000
    // bits 30-31 (type) are always 0
    ensures w >> 30 == 0
    ensures chipset.majorVersion != 10 ==> w == 0x27000
    ensures chipset.majorVersion == 10 ==>
              && (w >> 24) & 1 == 1
              && (w >> 25) & 7 == 0
              && (w >> 28) & 3 == (if boundsCheck then 3 else 2)
  {
    var word3: bv32 := (7 << 12) | (4 << 15);
    if chipset.majorVersion == 10 then
      var oob: bv32 := if boundsCheck then 3 else 2;
      word3 | (1 << 24) | (oob << 28)
    else word3
  }

  /** Number of elements of a static shape. */
  function NumElements(shape: seq<Extent>): int
    requires forall i :: 0 <= i < |shape| ==> shape[i].Static?
  {
    if |shape| == 0 then 1 else shape[0].value * NumElements(shape[1..])
  }

  /** Byte extent of dimension i: size * (stride * byteWidth). */
  function DimExtent(sizes: seq<int>, strides: seq<int>, byteWidth: nat, i: nat): int
    requires i < |sizes| == |strides|
  {
    sizes[i] * (strides[i] * byteWidth)
  }

  /** The running maximum of the byte extents of dimensions 0..k-1; None
      before the first dimension (the null maxIndex of the lowering). */
  function MaxExtentUpTo(sizes: seq<int>, strides: seq<int>, byteWidth: nat, k: nat): Option<int>
    requires k <= |sizes| == |strides|
  {
    if k == 0 then None
    else
      var e := DimExtent(sizes, strides, byteWidth, k - 1);
      match MaxExtentUpTo(sizes, strides, byteWidth, k - 1)
      case None => Some(e)
      case Some(m) => Some(if m < e then e else m)
  }

  /** The running maximum is the largest extent seen, and is one of them. */
  lemma {:induction false} MaxExtentIsMaximum(sizes: seq<int>, strides: seq<int>, byteWidth: nat, k: nat)
    requires 0 < k <= |sizes| == |strides|
    ensures MaxExtentUpTo(sizes, strides, byteWidth, k).Some?
    ensures forall i :: 0 <= i < k ==>
              DimExtent(sizes, strides, byteWidth, i) <= MaxExtentUpTo(sizes, strides, byteWidth, k).value
    ensures exists i :: 0 <= i < k &&
              DimExtent(sizes, strides, byteWidth, i) == MaxExtentUpTo(sizes, strides, byteWidth, k).value
  {
    if k > 1 {
      MaxExtentIsMaximum(sizes, strides, byteWidth, k - 1);
    }
  }

  /** The loop of the lowering over the memref's rank that accumulates
      maxIndex. */
  method ComputeMaxExtent(sizes: seq<int>, strides: seq<int>, byteWidth: nat) returns (maxIndex: Option<int>)
    requires |sizes| == |strides|
    ensures maxIndex == MaxExtentUpTo(sizes, strides, byteWidth, |sizes|)
  {
    maxIndex := None;
    var i := 0;
    while i < |sizes|
      invariant i <= |sizes|
      invariant maxIndex == MaxExtentUpTo(sizes, strides, byteWidth, i)
    {
      var stride := strides[i] * byteWidth;
      var maxThisDim := sizes[i] * stride;
      maxIndex := match maxIndex
        case None => Some(maxThisDim)
        case Some(m) => Some(if m < maxThisDim then maxThisDim else m);
      i := i + 1;
    }
  }

  /** A shape that is not static has a dynamic dimension, hence rank >= 1. */
  lemma DynamicShapeHasRank(memref: MemRefType)
    requires !memref.HasStaticShape()
    ensures |memref.shape| > 0
  {
  }

  /** Word 2 (num_records): the element count times the element byte width
      for a static shape; otherwise the largest per-dimension byte extent of
      the runtime descriptor. Either is truncated to i32. */
  function NumRecords(memref: MemRefType, desc: MemRefDescriptor): (n: U32)
    requires |desc.sizes| == |desc.strides| == |memref.shape|
    ensures memref.HasStaticShape() ==> n == Wrap(NumElements(memref.shape) * memref.ByteWidth())
    ensures !memref.HasStaticShape() ==>
              exists i :: 0 <= i < |desc.sizes| &&
                var m := DimExtent(desc.sizes, desc.strides, memref.ByteWidth(), i);
                && n == Wrap(m)
                && forall j :: 0 <= j < |desc.sizes| ==> DimExtent(desc.sizes, desc.strides, memref.ByteWidth(), j) <= m
  {
    var byteWidth := memref.ByteWidth();
    if memref.HasStaticShape() then
      Wrap(NumElements(memref.shape) * byteWidth)
    else
      DynamicShapeHasRank(memref);
      MaxExtentIsMaximum(desc.sizes, desc.strides, byteWidth, |desc.sizes|);
      Wrap(MaxExtentUpTo(desc.sizes, desc.strides, byteWidth, |desc.sizes|).value)
  }

  /** Product of a sequence of sizes. */
  function Product(s: seq<int>): int {
    if |s| == 0 then 1 else s[0] * Product(s[1..])
  }

  /** Strides of the identity (row-major, contiguous) layout over `sizes`. */
  predicate RowMajor(sizes: seq<int>, strides: seq<int>) {
    |strides| == |sizes| && forall i :: 0 <= i < |sizes| ==> strides[i] == Product(sizes[i + 1..])
  }

  lemma {:induction false} ProductOfPositive(s: seq<int>)
    requires forall i :: 0 <= i < |s| ==> s[i] >= 1
    ensures Product(s) >= 1
  {
    if |s| > 0 {
      ProductOfPositive(s[1..]);
    }
  }

  /** With sizes of at least 1, a suffix product never exceeds the product. */
  lemma {:induction false} ProductSuffixBound(s: seq<int>, i: nat)
    requires i <= |s|
    requires forall j :: 0 <= j < |s| ==> s[j] >= 1
    ensures Product(s[i..]) <= Product(s)
  {
    if i > 0 {
      assert s[1..][i - 1..] == s[i..];
      ProductSuffixBound(s[1..], i - 1);
      ProductOfPositive(s[1..]);
      assert s[0] * Product(s[1..]) >= Product(s[1..]);
    }
  }

  lemma {:induction false} NumElementsIsProduct(shape: seq<Extent>, sizes: seq<int>)
    requires |shape| == |sizes|
    requires forall i :: 0 <= i < |shape| ==> shape[i] == Static(sizes[i])
    ensures NumElements(shape) == Product(sizes)
  {
    if |shape| > 0 {
      NumElementsIsProduct(shape[1..], sizes[1..]);
    }
  }

  /** In a row-major layout, size[i] * stride[i] is the product of sizes i.. . */
  lemma RowMajorExtent(sizes: seq<int>, strides: seq<int>, byteWidth: nat, i: nat)
    requires i < |sizes|
    requires RowMajor(sizes, strides)
    ensures DimExtent(sizes, strides, byteWidth, i) == Product(sizes[i..]) * byteWidth
  {
    assert sizes[i..][1..] == sizes[i + 1..];
    assert Product(sizes[i..]) == sizes[i] * strides[i];
    assert sizes[i] * (strides[i] * byteWidth) == (sizes[i] * strides[i]) * byteWidth;
  }

  lemma MulMonotone(a: int, b: int, c: nat)
    requires a <= b
    ensures a * c <= b * c
  {
  }

  /** For a contiguous row-major memref whose sizes are all at least 1, the
      dynamic-shape formula (largest byte extent over the dimensions) gives
      the same num_records as the static-shape formula. */
  lemma StaticAgreesWithDynamicWhenContiguous(shape: seq<Extent>, sizes: seq<int>, strides: seq<int>, byteWidth: nat)
    requires |shape| == |sizes| > 0
    requires forall i :: 0 <= i < |shape| ==> shape[i] == Static(sizes[i])
    requires forall i :: 0 <= i < |sizes| ==> sizes[i] >= 1
    requires RowMajor(sizes, strides)
    ensures MaxExtentUpTo(sizes, strides, byteWidth, |sizes|) == Some(NumElements(shape) * byteWidth)
  {
    NumElementsIsProduct(shape, sizes);
    MaxExtentIsMaximum(sizes, strides, byteWidth, |sizes|);
    var total := Product(sizes);
    forall i | 0 <= i < |sizes|
      ensures DimExtent(sizes, strides, byteWidth, i) <= total * byteWidth
    {
      RowMajorExtent(sizes, strides, byteWidth, i);
      ProductSuffixBound(sizes, i);
      MulMonotone(Product(sizes[i..]), total, byteWidth);
    }
    RowMajorExtent(sizes, strides, byteWidth, 0);
    assert sizes[0..] == sizes;
  }
}
