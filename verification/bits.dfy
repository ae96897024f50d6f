/**
 * Bit fields of a byte, as `get_code` in src/main.rs extracts them.
 *
 * Bits are numbered 1..8 starting at the most significant bit. `get_code`
 * builds a mask as the sum of 2^(8-x) for every x in first..=last, ANDs the
 * byte with it and shifts the result right by 8 - last. A Rust `u8` is an
 * eight-bit vector, so the model works on `bv8`, whose `&`, `|`, `<<`, `>>`,
 * `+` and `*` are those of `u8` (with wrap-around where `u8` would overflow;
 * the preconditions keep every operation of get_code clear of that). The
 * lemmas show that a field is the familiar shift-and-mask value, that fields
 * split and reassemble without losing bits, and that bits outside a field
 * do not matter.
 */
module Bits {

  /** A Rust `u8`. */
  type Byte = bv8

  /** `2_u8.pow(n)`: u8 has no 2^8, so n stays below 8. It is the single bit n places up. */
  function Pow2(n: nat): (p: Byte)
    requires n < 8
    ensures p == 1 << n
  {
    if n == 0 then 1 else 2 * Pow2(n - 1)
  }

  /**
   * The mask of get_code: the sum of 2^(8-x) for x in first..=last. An
   * empty range (first > last) sums to 0. first >= 1 keeps every term, and
   * so the sum, inside u8. The sum has exactly the bits first..last set:
   * all ones from bit first down, cut below bit last.
   */
  function FieldMask(first: nat, last: nat): (m: Byte)
    requires 1 <= first && last <= 8
    ensures first <= last ==> m == (0xFF >> (first - 1)) & (0xFF << (8 - last))
    ensures first > last ==> m == 0
    decreases if first <= last then last + 1 - first else 0
  {
    if first > last then 0 else Pow2(8 - first) + FieldMask(first + 1, last)
  }

  /**
   * get_code: the bits first..=last of byte, right-justified. The source
   * needs 1 <= last <= 8 (8 - last must not underflow and a u8 shift by 8
   * overflows) and first >= 1 (2^8 does not fit a u8).
   */
  function GetCode(byte: Byte, first: Byte, last: Byte): (r: Byte)
    requires 1 <= first && 1 <= last <= 8
    ensures first > last ==> r == 0
  {
    (byte & FieldMask(first as nat, last as nat)) >> (8 - last)
  }

  /**
   * The value get_code computes, ANDing with the mask and then shifting, is
   * the field: the byte shifted right past the bits below the field, cut to
   * the field's width.
   */
  lemma GetCodeField(byte: Byte, first: Byte, last: Byte)
    requires 1 <= first <= last <= 8
    ensures GetCode(byte, first, last) == (byte >> (8 - last)) & (0xFF >> (8 - (last - first + 1)))
  {
  }

  /** A field of width last - first + 1 is below 2 to that width. */
  lemma GetCodeBound(byte: Byte, first: Byte, last: Byte)
    requires 1 <= first <= last <= 8
    ensures GetCode(byte, first, last) as bv16 < (1 as bv16) << (last - first + 1)
  {
    GetCodeField(byte, first, last);
  }

  /** Bit number i of b, counted 1..8 from the most significant bit. */
  function Bit(b: Byte, i: Byte): Byte
    requires 1 <= i <= 8
  {
    (b >> (8 - i)) & 1
  }

  /** The whole byte is the field 1..8. */
  lemma GetCodeWholeByte(b: Byte)
    ensures GetCode(b, 1, 8) == b
  {
    GetCodeField(b, 1, 8);
  }

  /** A one-bit field is that bit. */
  lemma GetCodeSingleBit(b: Byte, i: Byte)
    requires 1 <= i <= 8
    ensures GetCode(b, i, i) == Bit(b, i)
  {
    GetCodeField(b, i, i);
  }

  /**
   * A field splits at any inner position into a high part and a low part,
   * and the high part shifted left over the low part gives the field back.
   */
  lemma GetCodeSplit(b: Byte, first: Byte, mid: Byte, last: Byte)
    requires 1 <= first <= mid < last <= 8
    ensures GetCode(b, first, last) == (GetCode(b, first, mid) << (last - mid)) | GetCode(b, mid + 1, last)
  {
    GetCodeField(b, first, last);
    GetCodeField(b, first, mid);
    GetCodeField(b, mid + 1, last);
    SplitBits(b, first, mid, last);
  }

  /** The shift-and-mask field first..last splits at mid. */
  lemma SplitBits(b: Byte, first: Byte, mid: Byte, last: Byte)
    requires 1 <= first <= mid < last <= 8
    ensures (b >> (8 - last)) & (0xFF >> (8 - (last - first + 1))) ==
            (((b >> (8 - mid)) & (0xFF >> (8 - (mid - first + 1)))) << (last - mid)) |
            ((b >> (8 - last)) & (0xFF >> (8 - (last - mid))))
  {
    assert b >> (8 - mid) == (b >> (8 - last)) >> (last - mid);
  }

  /** The opcode, d and w fields of a first instruction byte, as shifts and masks of the byte. */
  lemma FirstByteFields(b: Byte)
    ensures GetCode(b, 1, 6) == b >> 2
    ensures GetCode(b, 7, 7) == (b >> 1) & 1
    ensures GetCode(b, 8, 8) == b & 1
  {
    GetCodeField(b, 1, 6);
    GetCodeField(b, 7, 7);
    GetCodeField(b, 8, 8);
  }

  /** The mod, reg and r/m fields of a second instruction byte, as shifts and masks of the byte. */
  lemma SecondByteFields(b: Byte)
    ensures GetCode(b, 1, 2) == b >> 6
    ensures GetCode(b, 3, 5) == (b >> 3) & 7
    ensures GetCode(b, 6, 8) == b & 7
  {
    GetCodeField(b, 1, 2);
    GetCodeField(b, 3, 5);
    GetCodeField(b, 6, 8);
  }

  /** The fields of the first instruction byte (opcode, d, w) put back together give the byte. */
  lemma FirstByteReassembly(b: Byte)
    ensures (GetCode(b, 1, 6) << 2) | (GetCode(b, 7, 7) << 1) | GetCode(b, 8, 8) == b
  {
    FirstByteFields(b);
  }

  /** The fields of the second instruction byte (mod, reg, r/m) put back together give the byte. */
  lemma SecondByteReassembly(b: Byte)
    ensures (GetCode(b, 1, 2) << 6) | (GetCode(b, 3, 5) << 3) | GetCode(b, 6, 8) == b
  {
    SecondByteFields(b);
  }

  /** Two bytes that agree on bits first..last have the same field, whatever their other bits. */
  lemma {:induction false} GetCodeIgnoresOtherBits(a: Byte, b: Byte, first: Byte, last: Byte)
    requires 1 <= first <= last <= 8
    requires forall i :: first <= i <= last ==> Bit(a, i) == Bit(b, i)
    ensures GetCode(a, first, last) == GetCode(b, first, last)
    decreases last - first
  {
    GetCodeSingleBit(a, last);
    GetCodeSingleBit(b, last);
    if first < last {
      GetCodeIgnoresOtherBits(a, b, first, last - 1);
      GetCodeSplit(a, first, last - 1, last);
      GetCodeSplit(b, first, last - 1, last);
    }
  }
}
