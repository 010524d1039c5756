/** The TIFF field types (TIFF 6.0 section 2, "Types", with the TIFF 6.0
    signed and floating types and the BigTIFF 8-byte types) and their
    element widths.
 */
module FieldTypes {
  import opened Outcomes

  const BYTE: nat := 1
  const ASCII: nat := 2
  const SHORT: nat := 3
  const LONG: nat := 4
  const RATIONAL: nat := 5
  const SBYTE: nat := 6
  const UNDEFINED: nat := 7
  const SSHORT: nat := 8
  const SLONG: nat := 9
  const SRATIONAL: nat := 10
  const FLOAT: nat := 11
  const DOUBLE: nat := 12
  const IFD: nat := 13
  const UNICODE: nat := 14
  const COMPLEX: nat := 15
  const LONG8: nat := 16
  const SLONG8: nat := 17
  const IFD8: nat := 18

  /** The types stored as raw bytes (BYTE_TYPE in the source). */
  predicate IsByteType(t: nat) {
    t == BYTE || t == ASCII || t == SBYTE || t == UNDEFINED
  }

  /** The types stored as 16-bit words (WORD_TYPE). */
  predicate IsWordType(t: nat) {
    t == SHORT || t == SSHORT
  }

  /** The types stored as 32-bit integers (LONG_TYPE). */
  predicate IsLongType(t: nat) {
    t == LONG || t == SLONG || t == IFD
  }

  predicate IsRational(t: nat) {
    t == RATIONAL || t == SRATIONAL
  }

  /** The element width of a field type, or None for an unknown code (the
      source aborts with "Unknown data type"). */
  function TypeSize(t: nat): (r: Option<nat>)
    ensures r.Some? <==> 1 <= t <= 18
    ensures r.Some? ==> r.value == 1 || r.value == 2 || r.value == 4 || r.value == 8
  {
    if t == BYTE || t == ASCII || t == UNDEFINED || t == SBYTE then Some(1)
    else if t == SHORT || t == SSHORT || t == UNICODE then Some(2)
    else if t == IFD || t == LONG || t == SLONG || t == FLOAT then Some(4)
    else if t == RATIONAL || t == SRATIONAL || t == DOUBLE || t == COMPLEX
            || t == LONG8 || t == SLONG8 || t == IFD8 then Some(8)
    else None
  }

  /** The bytes taken by `count` elements of type `typ`: the width times the
      count, written out per width so that proofs about it stay linear. */
  function SizeOf(typ: nat, count: nat): nat
    requires TypeSize(typ).Some?
  {
    var w := TypeSize(typ).value;
    if w == 1 then count else if w == 2 then 2 * count else if w == 4 then 4 * count else 8 * count
  }

  lemma SizeOfIsProduct(typ: nat, count: nat)
    requires TypeSize(typ).Some?
    ensures SizeOf(typ, count) == count * TypeSize(typ).value
  {
  }

  lemma SizeOfStep(typ: nat, count: nat)
    requires TypeSize(typ).Some? && count > 0
    ensures SizeOf(typ, count) == TypeSize(typ).value + SizeOf(typ, count - 1)
  {
  }

  /** The byte-order unit used to decode a value of at most 4 bytes held in
      the entry itself: bytes are copied, words and longs (and floats) are
      converted as one unit each. Any other type has no inline decoder. */
  function InlineUnit(t: nat): Option<nat>
  {
    if IsByteType(t) then Some(1)
    else if IsWordType(t) then Some(2)
    else if IsLongType(t) || t == FLOAT then Some(4)
    else None
  }

  /** The byte-order unit used for an out-of-line payload: rationals are
      pairs of 32-bit words, doubles one 8-byte unit; byte types and the
      types without a dedicated converter are copied byte for byte. */
  function PayloadUnit(t: nat): (u: nat)
    ensures u > 0
  {
    if IsWordType(t) then 2
    else if IsLongType(t) || IsRational(t) || t == FLOAT then 4
    else if t == DOUBLE then 8
    else 1
  }

  /** The source's type classes agree with the width table: the byte types
      are exactly the 1-byte types, and every type with an inline decoder
      decodes in units of its own width. */
  lemma TypeClassesAgree(t: nat)
    ensures IsByteType(t) <==> TypeSize(t) == Some(1)
    ensures IsWordType(t) ==> TypeSize(t) == Some(2)
    ensures IsLongType(t) ==> TypeSize(t) == Some(4)
    ensures IsRational(t) ==> TypeSize(t) == Some(8)
    ensures InlineUnit(t).Some? ==> TypeSize(t) == InlineUnit(t)
  {
  }

  /** The payload unit always divides the element width, so a payload of
      whole elements is a whole number of units. */
  lemma PayloadUnitDividesWidth(t: nat)
    requires TypeSize(t).Some?
    ensures TypeSize(t).value % PayloadUnit(t) == 0
  {
  }

  /** The full width table, code by code. */
  lemma TypeSizeTable()
    ensures forall t :: t in {1, 2, 6, 7} ==> TypeSize(t) == Some(1)
    ensures forall t :: t in {3, 8, 14} ==> TypeSize(t) == Some(2)
    ensures forall t :: t in {4, 9, 11, 13} ==> TypeSize(t) == Some(4)
    ensures forall t :: t in {5, 10, 12, 15, 16, 17, 18} ==> TypeSize(t) == Some(8)
    ensures forall t: nat :: t == 0 || t > 18 ==> TypeSize(t) == None
  {
  }
}
