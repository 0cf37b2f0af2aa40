# AMDGPU raw-buffer op lowering, modelled in Dafny

This project models the rewrite rule of MLIR's AMDGPU-to-ROCDL conversion that
lowers `amdgpu.raw_buffer_load`, `amdgpu.raw_buffer_store` and
`amdgpu.raw_buffer_atomic_fadd` into calls of the matching `rocdl` raw-buffer
intrinsics (`RawBufferOpLowering::matchAndRewrite`). With the IR building
stripped away, the rule is a computation over integers and types:

- **Transport type** (`TransportType`): the type that crosses the intrinsic
  boundary. It is the wanted type itself, a single integer of `totalBits`, or a
  vector of `totalBits/32` i32 words. The rule fails above
  `maxVectorOpWidth` = 128 bits, and for sub-word elements whose total width is
  not a multiple of 32.
- **Resource descriptor** (`ResourceDescriptor`): the 4 x i32 buffer
  descriptor. Word 0 is the low half of the pointer. Word 1 is the high half
  masked to 16 bits. Word 2 (num_records) is the static byte size, or for a
  dynamic shape the largest per-dimension byte extent. Word 3 holds the format
  constant, plus on major version 10 the reserved bit 24 and the out-of-bounds
  select.
- **Offsets** (`BufferOffsets`): voffset, the sum of index times byte stride
  (static strides folded, dynamic ones multiplied at run time), plus the index
  offset in bytes. soffset, the sgpr offset or 0, plus the memref offset.
- **The rule** (`RawBufferLowering`): the chipset check, the operand list
  `[data?, descriptor, voffset, soffset, 0]`, the bitcasts, and the
  replacement or erasure of the op.

`RawBufferLowering.LowerRawBufferOp` follows `matchAndRewrite` step by step
over mutable locals: `args` grows by appends, `resource` starts as four
undefined lanes and gets four inserts, and `sgprOffset` is updated in place.
Its two loops are the methods `ComputeMaxExtent` (maxIndex over the rank) and
`ComputeVOffset` (voffset over the indices). Each loop is proved against a
recursive specification function. The method is proved equal to the function
`Lower`, and the lemmas state what `Lower` produces.

Value conventions:

- An i32 value is kept as its 32-bit pattern, an int in [0, 2^32).
- LLVM `add`, `mul` and `trunc`, and C++ casts to `int32_t`, are `% 2^32`
  (`Arith32.Wrap`). Dafny's `%` is Euclidean, so negative values become their
  two's-complement pattern.
- The pointer after `ptrtoint` is an int in [0, 2^64).
- Word 3 is computed with the same shifts and ORs as the C++ code on `bv32`.
- The chipset is its `majorVersion` field.
- `getStridesAndOffset` is an input: `MemRefType.layout` is `None` exactly
  when it fails.
- The runtime memref descriptor (aligned pointer, sizes, strides, offset) and
  the runtime index and sgpr operands are inputs.

Behaviour of the code that the model keeps as written:

- The vector width `elemBits * n` is stored in a `uint32_t`, so it wraps
  modulo 2^32. The 128-bit ceiling therefore holds only for true widths below
  2^32 (`ClassifyRejectsWide`, `ClassifyWrapsHugeWidth`).
- With no indices and no index offset, voffset stays the null Value. It does
  not become a zero constant (`VOffsetArg(None)`).
- Word 1 is `(ptr >> 32) & 0xffff`.
- The memref offset goes into soffset unscaled, in elements. A negative static
  offset is dropped.
- For a static shape, num_records is `numElements * byteWidth` whatever the
  strides are.

## Model

| member | source | states |
|---|---|---|
| `TransportType.Classify` | mlir/lib/Conversion/AMDGPUToROCDL/AMDGPUToROCDL.cpp:73-95 | Scalars are returned unchanged. Only a vector with elements under 32 bits is repacked, and only into an integer of at most 32 bits or 2 to 4 i32 words. The repacking keeps the bit width. Every accepted vector has a 32-bit total width of at most 128. |
| `TransportType.ClassifyOutcomes` | mlir/lib/Conversion/AMDGPUToROCDL/AMDGPUToROCDL.cpp:74-94 | Gives each outcome and exactly when it happens. Unchanged iff scalar, or elemBits >= 32 within 128 bits. WidthExceeded iff totalBits > 128. NotWordAligned iff sub-word elements with 32 < totalBits <= 128 and totalBits % 32 != 0. Otherwise the result is i(totalBits) when totalBits <= 32, else a vector of totalBits/32 i32. |
| `TransportType.ClassifyRejectsWide` | mlir/lib/Conversion/AMDGPUToROCDL/AMDGPUToROCDL.cpp:75-82 | A vector whose true width is between 128 and 2^32 bits fails with WidthExceeded. |
| `TransportType.ClassifyWrapsHugeWidth` | mlir/lib/Conversion/AMDGPUToROCDL/AMDGPUToROCDL.cpp:75-77 | The uint32 product wraps, so a vector of 2^29+1 i8 is accepted as an i8. |
| `ResourceDescriptor.Word0` | mlir/lib/Conversion/AMDGPUToROCDL/AMDGPUToROCDL.cpp:130-135 | Word 0 is the low 32 bits of the pointer: the pointer minus word 0 is a whole multiple of 2^32. |
| `ResourceDescriptor.Word1` | mlir/lib/Conversion/AMDGPUToROCDL/AMDGPUToROCDL.cpp:137-147 | Word 1 is below 2^16, so no address bit reaches descriptor bits 48-63 (stride and swizzle). |
| `ResourceDescriptor.PointerSplit` | mlir/lib/Conversion/AMDGPUToROCDL/AMDGPUToROCDL.cpp:130-147 | word0 == ptr mod 2^32 and word1 == (ptr >> 32) mod 2^16. Together, word1 * 2^32 + word0 == ptr mod 2^48. |
| `ResourceDescriptor.Word3` | mlir/lib/Conversion/AMDGPUToROCDL/AMDGPUToROCDL.cpp:171-190 | Bits 0-23 always hold exactly 0x27000 (format 7 at bit 12, 4 at bit 15). Bits 30-31 are always 0. For any major version other than 10, word 3 is 0x27000. For major version 10, bit 24 is 1, bits 25-27 are 0, and bits 28-29 are 3 when bounds-checked, else 2. |
| `ResourceDescriptor.DynamicShapeHasRank` | mlir/lib/Conversion/AMDGPUToROCDL/AMDGPUToROCDL.cpp:150-165 | A non-static shape has rank >= 1, so maxIndex is set before it is truncated. |
| `ResourceDescriptor.MaxExtentIsMaximum` | mlir/lib/Conversion/AMDGPUToROCDL/AMDGPUToROCDL.cpp:155-164 | After k >= 1 dimensions, the running maxIndex is set. It is at least every dimension's size*stride*byteWidth, and equal to one of them. |
| `ResourceDescriptor.ComputeMaxExtent` | mlir/lib/Conversion/AMDGPUToROCDL/AMDGPUToROCDL.cpp:155-164 | The loop over the rank leaves maxIndex equal to the running maximum of the byte extents of all dimensions. |
| `ResourceDescriptor.NumRecords` | mlir/lib/Conversion/AMDGPUToROCDL/AMDGPUToROCDL.cpp:149-166 | Static shape: numElements*byteWidth mod 2^32. Dynamic shape: the truncation of one dimension's byte extent size*stride*byteWidth that is at least every other dimension's. |
| `ResourceDescriptor.StaticAgreesWithDynamicWhenContiguous` | mlir/lib/Conversion/AMDGPUToROCDL/AMDGPUToROCDL.cpp:149-166 | For a row-major contiguous memref with all sizes >= 1, the dynamic-shape formula (max extent) equals the static-shape formula numElements*byteWidth. |
| `BufferOffsets.VOffset` | mlir/lib/Conversion/AMDGPUToROCDL/AMDGPUToROCDL.cpp:197-221 | voffset is present iff there are indices or an index offset. With only an index offset it is indexOffset*byteWidth mod 2^32. |
| `BufferOffsets.IndexTermsAreByteOffset` | mlir/lib/Conversion/AMDGPUToROCDL/AMDGPUToROCDL.cpp:198-213 | The i32 chain of index*strideBytes multiplies and adds is absent iff there are no terms. Otherwise it equals the integer sum of index[i]*stride[i]*byteWidth mod 2^32 (static stride from the layout, dynamic from the descriptor). |
| `BufferOffsets.VOffsetIsByteOffset` | mlir/lib/Conversion/AMDGPUToROCDL/AMDGPUToROCDL.cpp:197-221 | voffset is present iff there are indices or an index offset. When present, it is (sum of index[i]*strideBytes(i) + indexOffset*byteWidth) mod 2^32. |
| `BufferOffsets.ComputeVOffset` | mlir/lib/Conversion/AMDGPUToROCDL/AMDGPUToROCDL.cpp:197-221 | The loop over the indices, then the index offset, yields exactly the specified voffset. |
| `BufferOffsets.SOffset` | mlir/lib/Conversion/AMDGPUToROCDL/AMDGPUToROCDL.cpp:223-231 | Start from the sgpr offset, or 0. A dynamic layout offset adds the runtime offset mod 2^32. A static offset >= 0 is added unscaled mod 2^32. A static offset <= 0 leaves it unchanged. |
| `RawBufferLowering.IntrinsicForIsOneToOne` | mlir/lib/Conversion/AMDGPUToROCDL/AMDGPUToROCDL.cpp:306-310 | Load, store and atomic fadd are each lowered to an intrinsic of their own. |
| `RawBufferLowering.StoreOperand` | mlir/lib/Conversion/AMDGPUToROCDL/AMDGPUToROCDL.cpp:97-105 | The data operand has the transport type and is the op's own value operand, bitcast iff the transport type differs from the op's type. |
| `RawBufferLowering.Replacement` | mlir/lib/Conversion/AMDGPUToROCDL/AMDGPUToROCDL.cpp:243-249 | The replacement has the op's type and is the call's result, bitcast back iff the transport type differs from the op's type. |
| `RawBufferLowering.Lower` | mlir/lib/Conversion/AMDGPUToROCDL/AMDGPUToROCDL.cpp:41-254 | Major version < 9 fails first. Then a classifier failure, then a non-strided memref. Success iff none of these happens. On success, the list is [data?, descriptor, voffset, soffset, 0]: length 5 with store data, 4 without. The data operand is the op's value operand, bitcast to the transport type iff the op's type is a sub-word vector. The call returns the transport type once per op result. A load's uses get the call's result, bitcast back to the op's type iff it is a sub-word vector; an op with no result is erased. A bitcast happens before the call iff a sub-word vector is stored, and after it iff one is loaded. |
| `RawBufferLowering.LowerRawBufferOp` | mlir/lib/Conversion/AMDGPUToROCDL/AMDGPUToROCDL.cpp:41-254 | The step-by-step rule (argument appends, four descriptor inserts, the two loops, the sgpr offset updates) produces exactly `Lower`'s result, failure or lowering. |
| `RawBufferLowering.LoweredDescriptor` | mlir/lib/Conversion/AMDGPUToROCDL/AMDGPUToROCDL.cpp:114-195 | All four lanes of the emitted descriptor are defined. Lanes 0-1 hold ptr mod 2^48, with lane 1 < 2^16. Lane 2 is numElements*byteWidth (static), or a maximum over the dimensions' byte extents (dynamic), mod 2^32. Lane 3 is 0x27000, or on major 10 it is 0x27000 + 2^24 + (3 or 2)*2^28. |
| `RawBufferLowering.LoweredOffsets` | mlir/lib/Conversion/AMDGPUToROCDL/AMDGPUToROCDL.cpp:197-232 | The emitted voffset is the element's byte offset mod 2^32, present iff there are indices or an index offset. The emitted soffset is the sgpr offset (or 0) plus the memref offset. |
| `RawBufferLowering.StaticFourByFourF32` | mlir/lib/Conversion/AMDGPUToROCDL/AMDGPUToROCDL.cpp:149-153 | A static 4x4 f32 memref gets num_records 64. |
| `RawBufferLowering.VOffsetOfIndicesTwoThree` | mlir/lib/Conversion/AMDGPUToROCDL/AMDGPUToROCDL.cpp:197-232 | Indices [2,3], strides [4,1], 4-byte elements give voffset 44. No sgpr offset and offset 0 give soffset 0. |
| `RawBufferLowering.TwoHalvesCastOnce` | mlir/lib/Conversion/AMDGPUToROCDL/AMDGPUToROCDL.cpp:97-252 | A store of vector<2xf16> bitcasts the value to i32 before the call, and nothing after. A load of it bitcasts only the result, back to vector<2xf16>. |

## Left out

- The MLIR object model is not modelled: operations, locations, `rewriter.create<...>`, `UndefOp`, `InsertElementOp`, `MemRefDescriptor` and the adaptor. These are foreign library calls. Values are numbers or the small `DataValue` terms, and the descriptor is a sequence of four optional lanes.
- `typeConverter->convertType` is the identity on the modelled types. `RawBufferOp.dataType` stands for both the wanted type and its LLVM conversion.
- `getStridesAndOffset` is not modelled. Its success and its static or dynamic strides and offset are inputs.
- The runtime memref descriptor fields and the op's runtime operands are inputs, not IR values.
- On failure, the rule's partial IR is rolled back by the conversion driver. The model returns only the error.
- Diagnostic texts of `emitOpError` are not modelled; failures are the `LoweringError` values.
- `LDSBarrierOpLowering` is not modelled. It emits a fixed inline-asm string and has no computation.
- `ConvertAMDGPUToROCDLPass::runOnOperation` and `populateAMDGPUToROCDLConversionPatterns` are not modelled. They are pass and pattern registration. `Chipset::parse` is not part of this model.
- ResourceDescriptor.NumRecords: the dynamic-shape extents `size * (stride * byteWidth)` are exact integers. The model does not wrap them at 64 bits. Their maximum is the integer maximum, although `LLVM::MaximumOp` names the floating-point maximum intrinsic. Only the final truncation to i32 is modelled.
- BufferOffsets.ComputeVOffset: `byteWidthConst` is taken to be the element byte width itself. MLIR element widths are below 2^24 bits, so the width fits an i32. The i64 descriptor strides and offset are folded into the i32 arithmetic modulo 2^32. The generated IR mixes i64 and i32 operands there, and its typing is not modelled.
