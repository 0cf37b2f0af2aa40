/** The bit-width classifier: which type carries the data across the
    rocdl raw-buffer intrinsic boundary. */
module TransportType {
  import opened Ir

  /** The widest load or store the intrinsics accept, in bits. */
  const MaxVectorOpWidth: nat := 128

  /** Number of bits a value of type `t` occupies. */
  function BitWidth(t: DataType): nat {
    match t
    case Scalar(_, bits) => bits
    case Vector(n, _, elemBits) => n * elemBits
  }

  /** The total width of a vector as the lowering computes it: the product is
      stored into a uint32_t, so it is taken modulo 2^32. */
  function TotalBits(t: DataType): nat
    requires t.Vector?
  {
    (t.elemBits * t.count) % TWO32
  }

  /** A type the intrinsic can move without repacking on the caller's side:
      an integer of at most one word, or a short vector of i32 words. */
  predicate IsPackedType(t: DataType) {
    || (t.Scalar? && t.kind == Integer && t.bits <= 32)
    || (t.Vector? && t.elemKind == Integer && t.elemBits == 32 && 2 <= t.count <= 4)
  }

  /** The transport type for `wanted`, or the reason there is none. */
  function Classify(wanted: DataType): (r: Result<DataType, LoweringError>)
    // scalars are never repacked nor rejected
    ensures wanted.Scalar? ==> r == Success(wanted)
    // only a vector of sub-word elements is repacked, and into a packed integer type
    ensures r.Success? && r.value != wanted ==>
              wanted.Vector? && wanted.elemBits < 32 && IsPackedType(r.value)
    // the repacking is a reinterpretation: the bit width is kept
    ensures r.Success? && BitWidth(wanted) < TWO32 ==> BitWidth(r.value) == BitWidth(wanted)
    // what is accepted fits the 128-bit ceiling
    ensures r.Success? && wanted.Vector? ==> TotalBits(wanted) <= MaxVectorOpWidth
  {
    match wanted
    case Scalar(_, _) => Success(wanted)
    case Vector(n, _, elemBits) =>
      var totalBits := TotalBits(wanted);
      if totalBits > MaxVectorOpWidth then Failure(WidthExceeded)
      else if elemBits < 32 then
        if totalBits > 32 then
          if totalBits % 32 != 0 then Failure(NotWordAligned)
          else Success(Vector(totalBits / 32, Integer, 32))
        else Success(Scalar(Integer, totalBits))
      else Success(wanted)
  }

  /** Each outcome of the classifier, and exactly when it happens. */
  lemma ClassifyOutcomes(wanted: DataType)
    ensures Classify(wanted) == Success(wanted) <==>
              wanted.Scalar? || (TotalBits(wanted) <= MaxVectorOpWidth && wanted.elemBits >= 32)
    ensures Classify(wanted) == Failure(WidthExceeded) <==>
              wanted.Vector? && TotalBits(wanted) > MaxVectorOpWidth
    ensures Classify(wanted) == Failure(NotWordAligned) <==>
              wanted.Vector? && wanted.elemBits < 32 &&
              32 < TotalBits(wanted) <= MaxVectorOpWidth && TotalBits(wanted) % 32 != 0
    ensures wanted.Vector? && wanted.elemBits < 32 && TotalBits(wanted) <= 32 ==>
              Classify(wanted) == Success(Scalar(Integer, TotalBits(wanted)))
    ensures wanted.Vector? && wanted.elemBits < 32 &&
            32 < TotalBits(wanted) <= MaxVectorOpWidth && TotalBits(wanted) % 32 == 0 ==>
              Classify(wanted) == Success(Vector(TotalBits(wanted) / 32, Integer, 32))
  {
  }

  /** For every vector whose true width is representable in 32 bits, the
      ceiling applies to that true width. */
  lemma ClassifyRejectsWide(wanted: DataType)
    requires wanted.Vector?
    requires MaxVectorOpWidth < wanted.elemBits * wanted.count < TWO32
    ensures Classify(wanted) == Failure(WidthExceeded)
  {
  }

  /** The width product is computed in 32 bits, so a vector of 2^29 + 1
      bytes (true width 2^32 + 8 bits) is classified as an i8. */
  lemma ClassifyWrapsHugeWidth()
    ensures Classify(Vector(0x2000_0001, Integer, 8)) == Success(Scalar(Integer, 8))
  {
  }
}
