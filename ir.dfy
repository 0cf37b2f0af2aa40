/** The data the raw-buffer lowering reads: the op being lowered, its memref
    type and strided layout, the runtime memref descriptor, the chipset, and
    the failures the rule can report. */
module Ir {

  /** 2^32: every i32 value is kept as its 32-bit pattern read unsigned. */
  const TWO32: int := 0x1_0000_0000

  /** An LLVM i32 value, as its bit pattern in [0, 2^32). */
  type U32 = x: int | 0 <= x < 0x1_0000_0000

  /** An LLVM i64 value (the pointer after ptrtoint), as its bit pattern. */
  type U64 = x: int | 0 <= x < 0x1_0000_0000_0000_0000

  datatype Option<+T> = None | Some(value: T)

  datatype Result<+T, +E> = Success(value: T) | Failure(error: E)

  datatype ElemKind = Integer | Float

  /** The logical data type of a load result or of a stored value. */
  datatype DataType =
    | Scalar(kind: ElemKind, bits: nat)
    | Vector(count: nat, elemKind: ElemKind, elemBits: nat)

  /** A size, stride or offset of a memref type: a constant or the dynamic marker. */
  datatype Extent = Static(value: int) | Dynamic

  /** What getStridesAndOffset reports for a strided memref. */
  datatype StridedLayout = StridedLayout(strides: seq<Extent>, offset: Extent)

  /** A memref type. `layout` is None when the memref is not stride/offset
      expressible, i.e. when getStridesAndOffset fails. */
  datatype MemRefType = MemRefType(shape: seq<Extent>, elemBits: nat, layout: Option<StridedLayout>)
  {
    predicate HasStaticShape() {
      forall i :: 0 <= i < |shape| ==> shape[i].Static?
    }

    /** Element width in bytes, as `getElementTypeBitWidth() / 8`. */
    function ByteWidth(): nat {
      elemBits / 8
    }
  }

  /** The runtime memref descriptor: aligned pointer (already converted to
      i64), and the per-dimension sizes and strides and the offset, all
      index-typed runtime values. */
  datatype MemRefDescriptor = MemRefDescriptor(alignedPtr: U64, sizes: seq<int>, strides: seq<int>, offset: int)

  datatype OpKind = Load | Store | AtomicFAdd

  /** An amdgpu raw buffer op. `dataType` is the stored value's type for
      Store and AtomicFAdd and the result type for Load; `indices` and
      `sgprOffset` are the runtime i32 operand values. */
  datatype RawBufferOp = RawBufferOp(
    kind: OpKind,
    dataType: DataType,
    memref: MemRefType,
    indices: seq<U32>,
    indexOffset: Option<U32>,
    sgprOffset: Option<U32>,
    boundsCheck: bool)

  datatype Chipset = Chipset(majorVersion: int, minorVersion: int)

  datatype LoweringError =
    | UnsupportedChipset   // major version below 9
    | WidthExceeded        // more than 128 bits moved at once
    | NotWordAligned       // sub-word elements whose total width is not a multiple of 32
    | NonStridedMemRef     // getStridesAndOffset failed

  /** Store and AtomicFAdd carry the value to write; Load does not. */
  predicate HasStoreData(kind: OpKind) {
    kind != Load
  }

  /** Number of results of the op (and of the intrinsic that replaces it). */
  function NumResults(kind: OpKind): nat {
    if kind == Load then 1 else 0
  }

  /** What the op verifier and the memref lowering guarantee before the rule
      runs: one index per dimension, one stride per dimension, and a runtime
      descriptor of the memref's rank. */
  predicate WellFormed(op: RawBufferOp, desc: MemRefDescriptor) {
    var rank := |op.memref.shape|;
    && |op.indices| == rank
    && (op.memref.layout.Some? ==> |op.memref.layout.value.strides| == rank)
    && |desc.sizes| == rank
    && |desc.strides| == rank
  }
}
