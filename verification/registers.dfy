/**
 * The 8086 register table of `register_encode` in src/main.rs: a 3-bit
 * register code and the `w` flag select one of sixteen registers. Any code
 * above 7 reaches the table's `panic!` arm, modelled here as `None`.
 */
module Registers {
  import opened Wrappers
  import opened Bits

  /** The sixteen registers, in the order the source declares them. */
  datatype Register = AL | BL | CL | DL | AH | BH | CH | DH | AX | BX | CX | DX | SP | BP | SI | DI

  /** The `w` flag of an instruction: true selects 16-bit registers. */
  datatype W = W(wide: bool)

  /** The 16-bit registers. */
  predicate IsWord(r: Register) {
    r.AX? || r.BX? || r.CX? || r.DX? || r.SP? || r.BP? || r.SI? || r.DI?
  }

  /** The 8086 byte registers by register code 0..7, as the Intel manual lists them. */
  const ByteRegisters: seq<Register> := [AL, CL, DL, BL, AH, CH, DH, BH]

  /** The 8086 word registers by register code 0..7, as the Intel manual lists them. */
  const WordRegisters: seq<Register> := [AX, CX, DX, BX, SP, BP, SI, DI]

  /** register_encode: the register a code names at width w; `None` is the panic arm. */
  function RegisterEncode(bitReg: Byte, w: W): (r: Option<Register>)
    ensures r.Some? <==> bitReg < 8
    ensures r.Some? ==> IsWord(r.value) == w.wide
  {
    match bitReg
    case 0 => Some(if !w.wide then AL else AX)
    case 1 => Some(if !w.wide then CL else CX)
    case 2 => Some(if !w.wide then DL else DX)
    case 3 => Some(if !w.wide then BL else BX)
    case 4 => Some(if !w.wide then AH else SP)
    case 5 => Some(if !w.wide then CH else BP)
    case 6 => Some(if !w.wide then DH else SI)
    case 7 => Some(if !w.wide then BH else DI)
    case _ => None
  }

  /** The code and width that name a register: the inverse of the table. */
  function RegisterCode(r: Register): (cw: (Byte, W))
    ensures cw.0 < 8 && RegisterEncode(cw.0, cw.1) == Some(r)
  {
    match r
    case AL => (0, W(false))
    case CL => (1, W(false))
    case DL => (2, W(false))
    case BL => (3, W(false))
    case AH => (4, W(false))
    case CH => (5, W(false))
    case DH => (6, W(false))
    case BH => (7, W(false))
    case AX => (0, W(true))
    case CX => (1, W(true))
    case DX => (2, W(true))
    case BX => (3, W(true))
    case SP => (4, W(true))
    case BP => (5, W(true))
    case SI => (6, W(true))
    case DI => (7, W(true))
  }

  /** The table agrees with the Intel register listing, code by code and width by width. */
  lemma RegisterEncodeTable(code: Byte)
    requires code < 8
    ensures RegisterEncode(code, W(false)) == Some(ByteRegisters[code as int])
    ensures RegisterEncode(code, W(true)) == Some(WordRegisters[code as int])
  {
  }

  /** Every code and width the table accepts is recovered from the register it yields. */
  lemma RegisterCodeOfEncode(code: Byte, w: W)
    requires code < 8
    ensures RegisterCode(RegisterEncode(code, w).value) == (code, w)
  {
  }

  /** No two (code, width) pairs name the same register. */
  lemma RegisterEncodeInjective(c1: Byte, w1: W, c2: Byte, w2: W)
    requires RegisterEncode(c1, w1).Some? && RegisterEncode(c1, w1) == RegisterEncode(c2, w2)
    ensures c1 == c2 && w1 == w2
  {
    RegisterCodeOfEncode(c1, w1);
    RegisterCodeOfEncode(c2, w2);
  }

  /** A 3-bit field never reaches the panic arm. */
  lemma RegisterEncodeTotalOnField(b: Byte, first: Byte, w: W)
    requires 1 <= first <= 6
    ensures RegisterEncode(GetCode(b, first, first + 2), w).Some?
  {
    GetCodeField(b, first, first + 2);
  }
}
