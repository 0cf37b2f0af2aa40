/** The rewrite rule that lowers amdgpu.raw_buffer_load, raw_buffer_store and
    raw_buffer_atomic_fadd to the matching rocdl raw-buffer intrinsic call:
    classify the data width, build the resource descriptor, compute voffset
    and soffset, assemble the operand list and rewire the result. */
module RawBufferLowering {
  import opened Ir
  import opened Arith32
  import opened TransportType
  import opened ResourceDescriptor
  import opened BufferOffsets

  /** The rocdl intrinsic each op kind is lowered to. */
  datatype Intrinsic = RocdlRawBufferLoad | RocdlRawBufferStore | RocdlRawBufferAtomicFAdd

  function IntrinsicFor(kind: OpKind): Intrinsic {
    match kind
    case Load => RocdlRawBufferLoad
    case Store => RocdlRawBufferStore
    case AtomicFAdd => RocdlRawBufferAtomicFAdd
  }

  /** Each op kind has an intrinsic of its own. */
  lemma IntrinsicForIsOneToOne(a: OpKind, b: OpKind)
    ensures IntrinsicFor(a) == IntrinsicFor(b) ==> a == b
  {
  }

  /** The data-carrying IR values the rule handles, each with its type. */
  datatype DataValue =
    | OpData(ty: DataType)                       // the value operand of a store or atomic
    | CallResult(ty: DataType)                   // result 0 of the intrinsic call
    | Bitcast(ty: DataType, source: DataValue)   // llvm.bitcast of `source` to `ty`

  /** One operand of the intrinsic call. */
  datatype Arg =
    | DataArg(data: DataValue)
    | ResourceArg(lanes: seq<Option<U32>>)   // the 4 x i32 descriptor; None is an undef lane
    | VOffsetArg(voffset: Option<U32>)       // None is the null Value
    | I32Arg(value: U32)

  /** What happens to the original op once the call is emitted. */
  datatype Rewire = ReplaceWith(replacement: DataValue) | Erase

  datatype Lowering = Lowering(intrinsic: Intrinsic, args: seq<Arg>, resultTypes: seq<DataType>, rewire: Rewire)

  /** The value a chain of bitcasts starts from. */
  function Origin(v: DataValue): DataValue {
    match v
    case Bitcast(_, source) => Origin(source)
    case _ => v
  }

  /** The stored value as passed to the intrinsic: the op's own value operand,
      at the transport type, cast only when the two types differ. */
  function StoreOperand(wanted: DataType, transport: DataType): (d: DataValue)
    ensures d.ty == transport
    ensures Origin(d) == OpData(wanted)
    ensures d.Bitcast? <==> transport != wanted
  {
    if transport != wanted then Bitcast(transport, OpData(wanted)) else OpData(wanted)
  }

  /** The value that replaces the uses of a load's result: the call's result,
      at the op's own type, cast back only when the two types differ. */
  function Replacement(wanted: DataType, transport: DataType): (d: DataValue)
    ensures d.ty == wanted
    ensures Origin(d) == CallResult(transport)
    ensures d.Bitcast? <==> transport != wanted
  {
    if transport != wanted then Bitcast(wanted, CallResult(transport)) else CallResult(transport)
  }

  /** The four descriptor words, in lane order. */
  function DescriptorLanes(chipset: Chipset, op: RawBufferOp, desc: MemRefDescriptor): seq<Option<U32>>
    requires WellFormed(op, desc)
  {
    [Some(Word0(desc.alignedPtr)),
     Some(Word1(desc.alignedPtr)),
     Some(NumRecords(op.memref, desc)),
     Some(Word3(chipset, op.boundsCheck) as int)]
  }

  /** The descriptor operand of a lowered call: fourth from the end. */
  function ResourceOf(l: Lowering): seq<Option<U32>>
    requires |l.args| >= 4 && l.args[|l.args| - 4].ResourceArg?
  {
    l.args[|l.args| - 4].lanes
  }

  /** The rule bitcasts the stored value before the call. */
  predicate CastsBeforeCall(l: Lowering) {
    exists i :: 0 <= i < |l.args| && l.args[i].DataArg? && l.args[i].data.Bitcast?
  }

  /** The rule bitcasts the call's result back to the op's type. */
  predicate CastsAfterCall(l: Lowering) {
    l.rewire.ReplaceWith? && l.rewire.replacement.Bitcast?
  }

  /** A sub-word vector is the one kind of type the rule repacks. */
  predicate IsSubWordVector(t: DataType) {
    t.Vector? && t.elemBits < 32
  }

  /** The lowering of `op` on `chipset`, given the runtime memref descriptor
      its generated code reads. */
  function Lower(chipset: Chipset, op: RawBufferOp, desc: MemRefDescriptor): (r: Result<Lowering, LoweringError>)
    requires WellFormed(op, desc)
    // an old chipset fails before anything else
    ensures chipset.majorVersion < 9 ==> r == Failure(UnsupportedChipset)
    // the width check comes next, with the classifier's own error
    ensures chipset.majorVersion >= 9 && Classify(op.dataType).Failure? ==> r == Failure(Classify(op.dataType).error)
    ensures r.Success? <==>
              chipset.majorVersion >= 9 && Classify(op.dataType).Success? && op.memref.layout.Some?
    ensures r.Failure? && chipset.majorVersion >= 9 && Classify(op.dataType).Success? ==>
              r.error == NonStridedMemRef
    ensures r.Success? ==> r.value.intrinsic == IntrinsicFor(op.kind)
    // operand list: [data?, descriptor, voffset, soffset, aux = 0]
    ensures r.Success? ==>
              var args := r.value.args;
              var n := |args|;
              && n == (if HasStoreData(op.kind) then 5 else 4)
              && (HasStoreData(op.kind) ==> args[0].DataArg? && args[0].data.ty == Classify(op.dataType).value)
              && args[n - 4] == ResourceArg(DescriptorLanes(chipset, op, desc))
              && args[n - 3].VOffsetArg?
              && args[n - 2].I32Arg?
              && args[n - 1] == I32Arg(0)
    // the data operand is the op's stored value, repacked only for a sub-word vector
    ensures r.Success? && HasStoreData(op.kind) ==>
              r.value.args[0] == DataArg(if IsSubWordVector(op.dataType)
                                         then Bitcast(Classify(op.dataType).value, OpData(op.dataType))
                                         else OpData(op.dataType))
    // a load's uses get the call's result, cast back only for a sub-word vector
    ensures r.Success? && op.kind == Load ==>
              r.value.rewire == ReplaceWith(if IsSubWordVector(op.dataType)
                                            then Bitcast(op.dataType, CallResult(Classify(op.dataType).value))
                                            else CallResult(op.dataType))
    // the call yields values of the transport type, one per result of the op
    ensures r.Success? ==>
              && |r.value.resultTypes| == NumResults(op.kind)
              && forall t :: t in r.value.resultTypes ==> t == Classify(op.dataType).value
    // a result is replaced by a value of the op's own type; no result means erasure
    ensures r.Success? ==>
              if NumResults(op.kind) == 1 then
                r.value.rewire.ReplaceWith? && r.value.rewire.replacement.ty == op.dataType
              else r.value.rewire == Erase
    // bitcasts are inserted exactly where a sub-word vector is repacked
    ensures r.Success? ==>
              && (CastsBeforeCall(r.value) <==> HasStoreData(op.kind) && IsSubWordVector(op.dataType))
              && (CastsAfterCall(r.value) <==> op.kind == Load && IsSubWordVector(op.dataType))
  {
    if chipset.majorVersion < 9 then Failure(UnsupportedChipset)
    else
      match Classify(op.dataType)
      case Failure(e) => Failure(e)
      case Success(transport) =>
        if op.memref.layout.None? then Failure(NonStridedMemRef)
        else
          ClassifyOutcomes(op.dataType);
          var wanted := op.dataType;
          var layout := op.memref.layout.value;
          var byteWidth := op.memref.ByteWidth();
          var data := if HasStoreData(op.kind) then [DataArg(StoreOperand(wanted, transport))] else [];
          var args := data + [
            ResourceArg(DescriptorLanes(chipset, op, desc)),
            VOffsetArg(VOffset(op.indices, layout.strides, desc.strides, byteWidth, op.indexOffset)),
            I32Arg(SOffset(op.sgprOffset, layout.offset, desc.offset)),
            I32Arg(0)];
          var rewire := if NumResults(op.kind) == 1 then ReplaceWith(Replacement(wanted, transport)) else Erase;
          Success(Lowering(IntrinsicFor(op.kind), args, seq(NumResults(op.kind), _ => transport), rewire))
  }

  /** matchAndRewrite: the same steps, in the order of the C++ rule, over mutable
      locals (`args` grown by push_back, `resource` filled by four lane
      inserts, `sgprOffset` updated in place) and the two loops of
      ComputeMaxExtent and ComputeVOffset. */
  method LowerRawBufferOp(chipset: Chipset, op: RawBufferOp, desc: MemRefDescriptor)
    returns (r: Result<Lowering, LoweringError>)
    requires WellFormed(op, desc)
    ensures r == Lower(chipset, op, desc)
  {
    if chipset.majorVersion < 9 {
      return Failure(UnsupportedChipset);
    }
    var wanted := op.dataType;
    var classified := Classify(wanted);
    if classified.Failure? {
      return Failure(classified.error);
    }
    var bufferValType := classified.value;

    var args: seq<Arg> := [];
    if HasStoreData(op.kind) {
      if bufferValType != wanted {
        args := args + [DataArg(Bitcast(bufferValType, OpData(wanted)))];
      } else {
        args := args + [DataArg(OpData(wanted))];
      }
    }

    if op.memref.layout.None? {
      return Failure(NonStridedMemRef);
    }
    var layout := op.memref.layout.value;
    var byteWidth := op.memref.ByteWidth();

    var resource: seq<Option<U32>> := [None, None, None, None];
    var ptr := desc.alignedPtr;
    resource := resource[0 := Some(Word0(ptr))];
    resource := resource[1 := Some(Word1(ptr))];
    var numRecords: U32;
    if op.memref.HasStaticShape() {
      numRecords := Wrap(NumElements(op.memref.shape) * byteWidth);
    } else {
      var maxIndex := ComputeMaxExtent(desc.sizes, desc.strides, byteWidth);
      DynamicShapeHasRank(op.memref);
      MaxExtentIsMaximum(desc.sizes, desc.strides, byteWidth, |desc.sizes|);
      numRecords := Wrap(maxIndex.value);
    }
    resource := resource[2 := Some(numRecords)];
    resource := resource[3 := Some(Word3(chipset, op.boundsCheck) as int)];
    args := args + [ResourceArg(resource)];

    var voffset := ComputeVOffset(op.indices, layout.strides, desc.strides, byteWidth, op.indexOffset);
    args := args + [VOffsetArg(voffset)];

    var sgprOffset: U32 := if op.sgprOffset.Some? then op.sgprOffset.value else 0;
    if layout.offset.Dynamic? {
      sgprOffset := Add(Wrap(desc.offset), sgprOffset);
    } else if layout.offset.value > 0 {
      sgprOffset := Add(sgprOffset, Wrap(layout.offset.value));
    }
    args := args + [I32Arg(sgprOffset)];

    args := args + [I32Arg(0)];

    var resultTypes := seq(NumResults(op.kind), _ => bufferValType);
    var rewire: Rewire;
    if |resultTypes| == 1 {
      var replacement := CallResult(bufferValType);
      if bufferValType != wanted {
        replacement := Bitcast(wanted, replacement);
      }
      rewire := ReplaceWith(replacement);
    } else {
      rewire := Erase;
    }
    assert resource == DescriptorLanes(chipset, op, desc);
    assert sgprOffset == SOffset(op.sgprOffset, layout.offset, desc.offset);
    assert args == Lower(chipset, op, desc).value.args;
    assert resultTypes == Lower(chipset, op, desc).value.resultTypes;
    assert rewire == Lower(chipset, op, desc).value.rewire;
    r := Success(Lowering(IntrinsicFor(op.kind), args, resultTypes, rewire));
  }

  /** The descriptor of a successful lowering: words 0 and 1 carry the low
      48 bits of the pointer and nothing above them, word 2 is the static
      byte size or the largest runtime byte extent, word 3 is the format
      constant plus, on major version 10 only, bit 24 and the out-of-bounds
      select. */
  lemma LoweredDescriptor(chipset: Chipset, op: RawBufferOp, desc: MemRefDescriptor)
    requires WellFormed(op, desc)
    requires Lower(chipset, op, desc).Success?
    ensures var lanes := ResourceOf(Lower(chipset, op, desc).value);
            && |lanes| == 4
            && (forall i :: 0 <= i < 4 ==> lanes[i].Some?)
            && lanes[0].value == desc.alignedPtr % TWO32
            && lanes[1].value < TWO16
            && lanes[1].value * TWO32 + lanes[0].value == desc.alignedPtr % TWO48
            && (op.memref.HasStaticShape() ==>
                  lanes[2].value == Wrap(NumElements(op.memref.shape) * op.memref.ByteWidth()))
            && (!op.memref.HasStaticShape() ==>
                  exists i :: 0 <= i < |desc.sizes| &&
                    var m := DimExtent(desc.sizes, desc.strides, op.memref.ByteWidth(), i);
                    && lanes[2].value == Wrap(m)
                    && forall j :: 0 <= j < |desc.sizes| ==>
                         DimExtent(desc.sizes, desc.strides, op.memref.ByteWidth(), j) <= m)
            && (chipset.majorVersion != 10 ==> lanes[3].value == 0x27000)
            && (chipset.majorVersion == 10 ==>
                  lanes[3].value == 0x27000 + 0x100_0000 + (if op.boundsCheck then 3 else 2) * 0x1000_0000)
  {
    var lanes := ResourceOf(Lower(chipset, op, desc).value);
    assert lanes == DescriptorLanes(chipset, op, desc);
    PointerSplit(desc.alignedPtr);
    if !op.memref.HasStaticShape() {
      var byteWidth := op.memref.ByteWidth();
      DynamicShapeHasRank(op.memref);
      MaxExtentIsMaximum(desc.sizes, desc.strides, byteWidth, |desc.sizes|);
    }
    var w3 := Word3(chipset, op.boundsCheck);
    if chipset.majorVersion == 10 {
      assert w3 == 0x27000 | 0x100_0000 | (if op.boundsCheck then 0x3000_0000 else 0x2000_0000);
      if op.boundsCheck {
        assert w3 == 0x3102_7000;
      } else {
        assert w3 == 0x2102_7000;
      }
    }
  }

  /** The address operands of a successful lowering: voffset is the byte
      offset of the indexed element (index offset included) modulo 2^32, and
      is present exactly when there are indices or an index offset; soffset
      is the sgpr offset (or 0) plus the memref's offset, in elements. */
  lemma LoweredOffsets(chipset: Chipset, op: RawBufferOp, desc: MemRefDescriptor)
    requires WellFormed(op, desc)
    requires Lower(chipset, op, desc).Success?
    ensures var args := Lower(chipset, op, desc).value.args;
            var n := |args|;
            var layout := op.memref.layout.value;
            var byteWidth := op.memref.ByteWidth();
            var base := if op.sgprOffset.Some? then op.sgprOffset.value else 0;
            && (args[n - 3].voffset.Some? <==> |op.indices| > 0 || op.indexOffset.Some?)
            && (args[n - 3].voffset.Some? ==>
                  args[n - 3].voffset.value
                    == Wrap(ByteOffset(op.indices, layout.strides, desc.strides, byteWidth, |op.indices|)
                            + (if op.indexOffset.Some? then op.indexOffset.value else 0) * byteWidth))
            && (layout.offset.Dynamic? ==> args[n - 2].value == Wrap(desc.offset + base))
            && (layout.offset.Static? && layout.offset.value >= 0 ==>
                  args[n - 2].value == Wrap(base + layout.offset.value))
            && (layout.offset.Static? && layout.offset.value <= 0 ==> args[n - 2].value == base)
  {
    var layout := op.memref.layout.value;
    VOffsetIsByteOffset(op.indices, layout.strides, desc.strides, op.memref.ByteWidth(), op.indexOffset);
  }

  /** A 4 x 4 memref of f32 has num_records 64. */
  lemma StaticFourByFourF32()
    ensures NumRecords(MemRefType([Static(4), Static(4)], 32, Some(StridedLayout([Static(4), Static(1)], Static(0)))),
                       MemRefDescriptor(0, [4, 4], [4, 1], 0)) == 64
  {
    var shape := [Static(4), Static(4)];
    assert shape[1..] == [Static(4)];
    assert shape[1..][1..] == [];
  }

  /** Indices [2, 3] into static strides [4, 1] of 4-byte elements: voffset
      44, and soffset 0 with no sgpr offset and a zero layout offset. */
  lemma VOffsetOfIndicesTwoThree()
    ensures VOffset([2, 3], [Static(4), Static(1)], [4, 1], 4, None) == Some(44)
    ensures SOffset(None, Static(0), 0) == 0
  {
    assert IndexTerms([2, 3], [Static(4), Static(1)], [4, 1], 4, 1) == Some(32);
  }

  /** Storing a vector<2xf16> bitcasts the value to i32 before the call and
      has nothing to convert back; loading it converts only the result. */
  lemma TwoHalvesCastOnce(memref: MemRefType, desc: MemRefDescriptor, indices: seq<U32>)
    requires memref.layout.Some?
    requires WellFormed(RawBufferOp(Store, Vector(2, Float, 16), memref, indices, None, None, false), desc)
    ensures var store := Lower(Chipset(9, 0), RawBufferOp(Store, Vector(2, Float, 16), memref, indices, None, None, false), desc);
            && store.Success?
            && store.value.args[0] == DataArg(Bitcast(Scalar(Integer, 32), OpData(Vector(2, Float, 16))))
            && CastsBeforeCall(store.value) && !CastsAfterCall(store.value)
    ensures var load := Lower(Chipset(9, 0), RawBufferOp(Load, Vector(2, Float, 16), memref, indices, None, None, false), desc);
            && load.Success?
            && load.value.rewire == ReplaceWith(Bitcast(Vector(2, Float, 16), CallResult(Scalar(Integer, 32))))
            && !CastsBeforeCall(load.value) && CastsAfterCall(load.value)
  {
  }
}
