/**
 * The decode loop of `main` in src/main.rs. Each 2-byte chunk
 * `100010dw | mod reg r/m` is split into its fields, the opcode is
 * classified, mod is mapped to a mode, both register operands are looked up
 * at width w, and the pair is emitted in the order d selects. Only register
 * mode (mod = 11) is decoded; the memory modes stop the program
 * (`unimplemented!()`). Instead of printed lines the model produces
 * Instruction records.
 */
module Decoder {
  import opened Wrappers
  import opened Bits
  import opened Registers

  datatype OpCode = Mov | Other

  /** The `d` flag: true makes the reg field the destination. */
  datatype D = D(regIsDestination: bool)

  /** The addressing mode named by mod: MemMode carries the displacement width in bits. */
  datatype Mode = MemMode(displacementBits: Byte) | RegMode

  /** One emitted line: opcode, destination, source. */
  datatype Instruction = Instruction(opcode: OpCode, dst: Register, src: Register)

  /** Why a pair stops the program: a memory mode, or one of the `panic!` arms. */
  datatype DecodeError = Unimplemented(mode: Mode) | Panic(message: string)

  /** What the program emits for a byte stream: the records, then the failure that ended it, if any. */
  datatype Listing = Listing(records: seq<Instruction>, failure: Option<DecodeError>)

  /** The opcode field 100010 (0x22) is MOV; every other value is still decoded, as Other. */
  function ClassifyOpcode(bitOpcode: Byte): OpCode {
    if bitOpcode == 0x22 then Mov else Other
  }

  /**
   * The mode a mod field names; `None` is the `panic!` arm for values above 3.
   * A memory mode carries eight displacement bits per step of mod.
   */
  function DecodeMode(bitMod: Byte): (m: Option<Mode>)
    ensures m.Some? <==> bitMod < 4
    ensures m.Some? && m.value.MemMode? ==> m.value.displacementBits == bitMod * 8
    ensures m == Some(RegMode) <==> bitMod == 3
  {
    match bitMod
    case 0 => Some(MemMode(0))
    case 1 => Some(MemMode(8))
    case 2 => Some(MemMode(16))
    case 3 => Some(RegMode)
    case _ => None
  }

  /** The opcode read from a first byte by get_code is MOV exactly for 100010dw, the bytes 0x88..0x8B. */
  lemma ClassifyOpcodeOfField(b0: Byte)
    ensures ClassifyOpcode(GetCode(b0, 1, 6)) == Mov <==> 0x88 <= b0 <= 0x8B
  {
    FirstByteFields(b0);
  }

  /** A 2-bit mod field never reaches the panic arm: 11 is register mode, 00, 01 and 10 the memory modes. */
  lemma DecodeModeOfField(b1: Byte)
    ensures DecodeMode(GetCode(b1, 1, 2)) == Some(if b1 >= 0xC0 then RegMode else MemMode((b1 >> 6) * 8))
  {
    SecondByteFields(b1);
  }

  /**
   * The body of the loop for one chunk (b0, b1). The panics cannot happen:
   * the result is a record exactly when mod = 11 (b1 >= 0xC0), and
   * otherwise the memory mode that is not implemented.
   */
  function DecodePair(b0: Byte, b1: Byte): (r: Result<Instruction, DecodeError>)
    ensures r.Ok? <==> b1 >= 0xC0
    ensures r.Err? ==> r.error == Unimplemented(MemMode((b1 >> 6) * 8))
  {
    var bitOpcode := GetCode(b0, 1, 6);
    var bitD := GetCode(b0, 7, 7);
    var bitW := GetCode(b0, 8, 8);
    var bitMod := GetCode(b1, 1, 2);
    var bitReg := GetCode(b1, 3, 5);
    var bitRm := GetCode(b1, 6, 8);
    var opcode := ClassifyOpcode(bitOpcode);
    var d := D(bitD != 0);
    var w := W(bitW != 0);
    FirstByteFields(b0);
    SecondByteFields(b1);
    match DecodeMode(bitMod)
    case None => Err(Panic("Invalid value."))
    case Some(mode) =>
      match RegisterEncode(bitReg, w)
      case None => Err(Panic("Undefined value"))
      case Some(reg) =>
        match mode
        case MemMode(bits) =>
          if bits == 0 || bits == 8 || bits == 16 then Err(Unimplemented(mode)) else Err(Panic("Invalid value"))
        case RegMode =>
          match RegisterEncode(bitRm, w)
          case None => Err(Panic("Undefined value"))
          case Some(rm) =>
            if d.regIsDestination then Ok(Instruction(opcode, reg, rm)) else Ok(Instruction(opcode, rm, reg))
  }

  /**
   * A register-mode pair read straight off the Intel encoding: the opcode
   * is MOV for 100010dw (0x88..0x8B), reg is bits 3-5 and r/m bits 6-8 of
   * b1, both taken from the register list of the width w (bit 8 of b0), and
   * d (bit 7 of b0) makes reg the destination.
   */
  function IntelRegisterMove(b0: Byte, b1: Byte): Instruction {
    var table := if b0 & 1 == 1 then WordRegisters else ByteRegisters;
    var reg, rm := table[((b1 >> 3) & 7) as int], table[(b1 & 7) as int];
    var opcode := if 0x88 <= b0 <= 0x8B then Mov else Other;
    if (b0 >> 1) & 1 == 1 then Instruction(opcode, reg, rm) else Instruction(opcode, rm, reg)
  }

  /** In register mode the loop body decodes a pair exactly as the Intel encoding reads it. */
  lemma DecodePairRegisterMode(b0: Byte, b1: Byte)
    requires b1 >= 0xC0
    ensures DecodePair(b0, b1) == Ok(IntelRegisterMove(b0, b1))
  {
    FirstByteFields(b0);
    SecondByteFields(b1);
    RegisterEncodeTable((b1 >> 3) & 7);
    RegisterEncodeTable(b1 & 7);
  }

  /** The opcode is MOV exactly when the top six bits of b0 are 100010, i.e. b0 is 0x88..0x8B. */
  lemma DecodePairOpcode(b0: Byte, b1: Byte)
    requires b1 >= 0xC0
    ensures DecodePair(b0, b1).value.opcode == Mov <==> 0x88 <= b0 <= 0x8B
  {
    ClassifyOpcodeOfField(b0);
  }

  /** Both operands have the width w selects. */
  lemma DecodePairSameWidth(b0: Byte, b1: Byte)
    requires b1 >= 0xC0
    ensures IsWord(DecodePair(b0, b1).value.dst) == (b0 & 1 == 1)
    ensures IsWord(DecodePair(b0, b1).value.src) == (b0 & 1 == 1)
  {
    FirstByteFields(b0);
    SecondByteFields(b1);
  }

  /**
   * The register-to-register MOV encoding (100010dw, mod = 11) of two
   * registers of the same width; d chooses which one goes in the reg field.
   */
  function EncodeRegisterMov(d: D, dst: Register, src: Register): (bytes: (Byte, Byte))
    requires IsWord(dst) == IsWord(src)
    ensures 0x88 <= bytes.0 <= 0x8B && bytes.1 >= 0xC0
  {
    var (dstCode, w) := RegisterCode(dst);
    var (srcCode, _) := RegisterCode(src);
    var (reg, rm) := if d.regIsDestination then (dstCode, srcCode) else (srcCode, dstCode);
    (0x88 | (if d.regIsDestination then 2 else 0) | (if w.wide then 1 else 0), 0xC0 | (reg << 3) | rm)
  }

  /** Reading an encoded register MOV gives it back. */
  lemma IntelDecodeEncode(d: D, dst: Register, src: Register)
    requires IsWord(dst) == IsWord(src)
    ensures var (b0, b1) := EncodeRegisterMov(d, dst, src);
            IntelRegisterMove(b0, b1) == Instruction(Mov, dst, src)
  {
    var (dc, w) := RegisterCode(dst);
    var (sc, _) := RegisterCode(src);
    RegisterEncodeTable(dc);
    RegisterEncodeTable(sc);
  }

  /** Every register-mode MOV pair is the encoding, with its own d, of what it reads as. */
  lemma IntelEncodeDecode(b0: Byte, b1: Byte)
    requires 0x88 <= b0 <= 0x8B && b1 >= 0xC0
    ensures var ins := IntelRegisterMove(b0, b1);
            IsWord(ins.dst) == IsWord(ins.src) &&
            EncodeRegisterMov(D((b0 >> 1) & 1 == 1), ins.dst, ins.src) == (b0, b1)
  {
    var w := W(b0 & 1 == 1);
    var reg, rm := (b1 >> 3) & 7, b1 & 7;
    RegisterEncodeTable(reg);
    RegisterEncodeTable(rm);
    RegisterCodeOfEncode(reg, w);
    RegisterCodeOfEncode(rm, w);
  }

  /** Decoding an encoded register MOV gives it back. */
  lemma DecodeEncodeRegisterMov(d: D, dst: Register, src: Register)
    requires IsWord(dst) == IsWord(src)
    ensures var (b0, b1) := EncodeRegisterMov(d, dst, src);
            DecodePair(b0, b1) == Ok(Instruction(Mov, dst, src))
  {
    var (b0, b1) := EncodeRegisterMov(d, dst, src);
    IntelDecodeEncode(d, dst, src);
    DecodePairRegisterMode(b0, b1);
  }

  /** Every register-mode MOV pair is the encoding, with its own d, of the record it decodes to. */
  lemma EncodeDecodeRegisterMov(b0: Byte, b1: Byte)
    requires 0x88 <= b0 <= 0x8B && b1 >= 0xC0
    ensures var ins := DecodePair(b0, b1).value;
            IsWord(ins.dst) == IsWord(ins.src) &&
            EncodeRegisterMov(D((b0 >> 1) & 1 == 1), ins.dst, ins.src) == (b0, b1)
  {
    DecodePairRegisterMode(b0, b1);
    IntelEncodeDecode(b0, b1);
  }

  /** `chunks_exact(2)`: the consecutive byte pairs of a stream; a trailing odd byte is dropped. */
  function Chunks(bytes: seq<Byte>): (pairs: seq<(Byte, Byte)>)
    ensures |pairs| == |bytes| / 2
    ensures forall i :: 0 <= i < |pairs| ==> pairs[i] == (bytes[2 * i], bytes[2 * i + 1])
  {
    if |bytes| < 2 then []
    else
      var rest := Chunks(bytes[2..]);
      assert forall i :: 0 <= i < |rest| ==> rest[i] == (bytes[2 * (i + 1)], bytes[2 * (i + 1) + 1]);
      [(bytes[0], bytes[1])] + rest
  }

  /** Every chunk decoded on its own, in order. */
  function DecodeEach(pairs: seq<(Byte, Byte)>): (rs: seq<Result<Instruction, DecodeError>>)
    ensures |rs| == |pairs|
  {
    seq(|pairs|, i requires 0 <= i < |pairs| => DecodePair(pairs[i].0, pairs[i].1))
  }

  /**
   * What the loop emits for a sequence of decodings: one record per
   * decoding up to the first failure, which ends the run.
   */
  function Collect(rs: seq<Result<Instruction, DecodeError>>): (r: Listing)
    ensures |r.records| <= |rs|
    ensures r.failure.None? ==> |r.records| == |rs|
  {
    if rs == [] then Listing([], None)
    else
      match rs[0]
      case Err(e) => Listing([], Some(e))
      case Ok(ins) =>
        var rest := Collect(rs[1..]);
        Listing([ins] + rest.records, rest.failure)
  }

  /** What the loop emits for a sequence of chunks. */
  function DecodeChunks(pairs: seq<(Byte, Byte)>): Listing
  {
    Collect(DecodeEach(pairs))
  }

  /**
   * Collecting, decoding by decoding: record i is decoding i, and a run that
   * fails stops at the decoding that is that failure.
   */
  lemma {:induction false} CollectCharacterized(rs: seq<Result<Instruction, DecodeError>>)
    ensures var r := Collect(rs);
            (forall i :: 0 <= i < |r.records| ==> rs[i] == Ok(r.records[i])) &&
            (r.failure.Some? ==> |r.records| < |rs| && rs[|r.records|] == Err(r.failure.value))
  {
    if rs != [] && rs[0].Ok? {
      CollectCharacterized(rs[1..]);
    }
  }

  /** One step of collecting: the decoding at position k either ends the run or adds its record. */
  lemma CollectStep(rs: seq<Result<Instruction, DecodeError>>, k: nat)
    requires k < |rs|
    ensures rs[k].Err? ==> Collect(rs[k..]) == Listing([], Some(rs[k].error))
    ensures rs[k].Ok? ==> Collect(rs[k..]) == Listing([rs[k].value] + Collect(rs[k + 1..]).records, Collect(rs[k + 1..]).failure)
  {
    assert rs[k..][0] == rs[k];
    assert rs[k..][1..] == rs[k + 1..];
  }

  /** Collecting runs decoding by decoding: a prefix without failure is followed by the run of the rest. */
  lemma {:induction false} CollectAppend(rs: seq<Result<Instruction, DecodeError>>, ts: seq<Result<Instruction, DecodeError>>)
    requires Collect(rs).failure.None?
    ensures Collect(rs + ts) == Listing(Collect(rs).records + Collect(ts).records, Collect(ts).failure)
  {
    if rs != [] {
      assert (rs + ts)[0] == rs[0];
      assert (rs + ts)[1..] == rs[1..] + ts;
      CollectAppend(rs[1..], ts);
    } else {
      assert rs + ts == ts;
    }
  }

  /**
   * The run, chunk by chunk: record i is the decoding of chunk i, and a run
   * that fails stops at a chunk whose decoding is that failure.
   */
  lemma DecodeChunksCharacterized(pairs: seq<(Byte, Byte)>)
    ensures var r := DecodeChunks(pairs);
            (forall i :: 0 <= i < |r.records| ==> DecodePair(pairs[i].0, pairs[i].1) == Ok(r.records[i])) &&
            (r.failure.Some? ==>
               |r.records| < |pairs| && DecodePair(pairs[|r.records|].0, pairs[|r.records|].1) == Err(r.failure.value))
  {
    CollectCharacterized(DecodeEach(pairs));
  }

  /** A trailing odd byte is never part of a chunk. */
  lemma ChunksIgnoreTrailingByte(bytes: seq<Byte>)
    requires |bytes| % 2 == 1
    ensures Chunks(bytes) == Chunks(bytes[..|bytes| - 1])
  {
    var a, b := Chunks(bytes), Chunks(bytes[..|bytes| - 1]);
    assert |a| == |b|;
    forall i | 0 <= i < |a| ensures a[i] == b[i] {
      assert bytes[..|bytes| - 1][2 * i] == bytes[2 * i];
      assert bytes[..|bytes| - 1][2 * i + 1] == bytes[2 * i + 1];
    }
  }

  /** A stream of register-mode pairs is decoded whole: one record per chunk, in order. */
  lemma DecodeChunksAllRegisterMode(pairs: seq<(Byte, Byte)>)
    requires forall i :: 0 <= i < |pairs| ==> pairs[i].1 >= 0xC0
    ensures DecodeChunks(pairs).failure.None?
    ensures |DecodeChunks(pairs).records| == |pairs|
    ensures forall i :: 0 <= i < |pairs| ==> DecodeChunks(pairs).records[i] == IntelRegisterMove(pairs[i].0, pairs[i].1)
  {
    var r := DecodeChunks(pairs);
    DecodeChunksCharacterized(pairs);
    forall i | 0 <= i < |pairs| ensures r.records[i] == IntelRegisterMove(pairs[i].0, pairs[i].1) {
      DecodePairRegisterMode(pairs[i].0, pairs[i].1);
    }
  }

  /**
   * The first chunk in memory mode ends the run: the records are those of
   * the chunks before it, and the failure names its mode.
   */
  lemma DecodeChunksStopsAtMemoryMode(pairs: seq<(Byte, Byte)>, k: nat)
    requires k < |pairs| && pairs[k].1 < 0xC0
    requires forall i :: 0 <= i < k ==> pairs[i].1 >= 0xC0
    ensures |DecodeChunks(pairs).records| == k
    ensures forall i :: 0 <= i < k ==> DecodeChunks(pairs).records[i] == IntelRegisterMove(pairs[i].0, pairs[i].1)
    ensures DecodeChunks(pairs).failure == Some(Unimplemented(MemMode((pairs[k].1 >> 6) * 8)))
  {
    var r := DecodeChunks(pairs);
    DecodeChunksCharacterized(pairs);
    forall i | 0 <= i < k ensures r.records[i] == IntelRegisterMove(pairs[i].0, pairs[i].1) {
      DecodePairRegisterMode(pairs[i].0, pairs[i].1);
    }
  }

  /** Decoding chunk by chunk commutes with concatenating the chunks. */
  lemma DecodeEachAppend(p: seq<(Byte, Byte)>, q: seq<(Byte, Byte)>)
    ensures DecodeEach(p + q) == DecodeEach(p) + DecodeEach(q)
  {
    var a, b := DecodeEach(p + q), DecodeEach(p) + DecodeEach(q);
    forall i | 0 <= i < |a| ensures a[i] == b[i] {
      if i < |p| {
        assert (p + q)[i] == p[i];
      } else {
        assert (p + q)[i] == q[i - |p|];
      }
    }
  }

  /** Decoding runs chunk by chunk: a prefix that decodes completely is followed by the run of the rest. */
  lemma DecodeChunksAppend(p: seq<(Byte, Byte)>, q: seq<(Byte, Byte)>)
    requires DecodeChunks(p).failure.None?
    ensures DecodeChunks(p + q) == Listing(DecodeChunks(p).records + DecodeChunks(q).records, DecodeChunks(q).failure)
  {
    DecodeEachAppend(p, q);
    CollectAppend(DecodeEach(p), DecodeEach(q));
  }

  /**
   * `main` as a loop: walks the bytes two at a time (chunk k is bytes 2k and
   * 2k + 1), appending one record per chunk, and stops at the first chunk it
   * cannot decode.
   */
  method Disassemble(bytes: seq<Byte>) returns (listing: Listing)
    ensures listing == DecodeChunks(Chunks(bytes))
  {
    ghost var rs := DecodeEach(Chunks(bytes));
    var records: seq<Instruction> := [];
    var k := 0;
    while k < |bytes| / 2
      invariant k <= |rs|
      invariant Collect(rs) == Listing(records + Collect(rs[k..]).records, Collect(rs[k..]).failure)
    {
      var d := DecodePair(bytes[2 * k], bytes[2 * k + 1]);
      assert rs[k] == d;
      CollectStep(rs, k);
      match d
      case Err(e) =>
        return Listing(records, Some(e));
      case Ok(ins) =>
        ghost var tail := Collect(rs[k + 1..]).records;
        assert records + ([ins] + tail) == records + [ins] + tail;
        records := records + [ins];
      k := k + 1;
    }
    assert rs[k..] == [];
    listing := Listing(records, None);
  }
}
