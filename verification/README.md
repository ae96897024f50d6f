# sim_8086 decoder core in Dafny

This project models the 8086 MOV disassembler in `src/main.rs` of sim_8086:

- `get_code`, which extracts a bit field from a byte;
- `register_encode`, which maps a 3-bit register code and the `w` flag to one of sixteen registers;
- the loop in `main`, which walks the input two bytes at a time, splits each pair into the opcode, d, w, mod, reg and r/m fields, and prints one `MOV dst, src` line per pair.

A Rust `u8` is modelled as Dafny's `bv8`, so `&`, `|`, `<<` and `>>` are the same eight-bit operations.

The modules follow the source file:

- `Wrappers` holds `Option` and `Result`.
- `Bits` models `get_code` and its mask.
- `Registers` models the register enum and `register_encode`.
- `Decoder` holds:
  - the value types `OpCode`, `D`, `W` (from `Registers`), `Mode` and `Instruction`;
  - the decoding of one pair (`DecodePair`);
  - `chunks_exact(2)` (`Chunks`);
  - what the whole loop emits (`DecodeChunks`);
  - the loop itself, as the method `Disassemble`.

Each printed line becomes an `Instruction` record. Each way the program can stop becomes a `DecodeError`:

- `unimplemented!()` for the three memory modes;
- `panic!` for a field value the tables do not know.

A run is a `Listing`: the records emitted, then the failure that ended the run, if any.

The panic arms are modelled faithfully and then proved unreachable: every value of a 2-bit or 3-bit field is in the tables. Two reference definitions are independent of `get_code`:

- `IntelRegisterMove` reads a register-mode pair with plain shifts and masks and the Intel register lists.
- `EncodeRegisterMov` builds the two bytes of a register-to-register MOV.

The decoder is proved equal to the first and inverse to the second.

The source decodes only the two-byte `100010dw` register/memory-to/from-register MOV:

- it has no immediate, accumulator or direct-address forms, no displacements and no variable-length instructions;
- it reads fixed 2-byte chunks and silently drops a trailing odd byte;
- it decodes every first byte with the `100010dw` layout, naming the opcode `Other` when the top six bits are not `100010`;
- it stops the program on the first memory-mode pair.

Bits are numbered as `get_code` numbers them: 1..8, starting at the most significant bit.

## Model

| member | source | states |
|---|---|---|
| Bits.GetCode | src/main.rs:85-87 | get_code on an empty range (first > last) yields 0; its value on a non-empty range is stated by GetCodeField |
| Bits.Pow2 | src/main.rs:86 | `2_u8.pow(n)` for n < 8 is the single bit n places up (`1 << n`) |
| Bits.FieldMask | src/main.rs:86 | the mask summed over first..=last has exactly the bits first..last set; an empty range sums to 0 |
| Bits.GetCodeField | src/main.rs:85-87 | get_code returns the byte shifted right by 8 - last and cut to last - first + 1 bits |
| Bits.GetCodeBound | src/main.rs:85-87 | a field of width last - first + 1 is below 2 to that width |
| Bits.GetCodeWholeByte | src/main.rs:85-87 | the field 1..8 is the whole byte |
| Bits.GetCodeSingleBit | src/main.rs:85-87 | a one-bit field i is bit i of the byte |
| Bits.GetCodeSplit | src/main.rs:85-87 | a field split at any inner position is its high part shifted over its low part |
| Bits.GetCodeIgnoresOtherBits | src/main.rs:85-87 | two bytes that agree on bits first..last have the same field |
| Bits.FirstByteFields | src/main.rs:95-97 | opcode (bits 1-6), d (bit 7) and w (bit 8) of the first byte are `b >> 2`, `(b >> 1) & 1` and `b & 1` |
| Bits.SecondByteFields | src/main.rs:99-101 | mod (bits 1-2), reg (bits 3-5) and r/m (bits 6-8) of the second byte are `b >> 6`, `(b >> 3) & 7` and `b & 7` |
| Bits.FirstByteReassembly | src/main.rs:95-97 | opcode, d and w put back in place give the first byte: no bit is lost or read twice |
| Bits.SecondByteReassembly | src/main.rs:99-101 | mod, reg and r/m put back in place give the second byte |
| Registers.RegisterEncode | src/main.rs:23-83 | register_encode yields a register exactly for codes 0..7 (the panic arm otherwise), and the register is 16-bit exactly when w is set |
| Registers.RegisterCode | src/main.rs:23-83 | every register has a code below 8 and a width under which register_encode yields it |
| Registers.RegisterEncodeTable | src/main.rs:23-83 | for each code, the table is the Intel byte-register list at w = 0 and the word-register list at w = 1 |
| Registers.RegisterCodeOfEncode | src/main.rs:23-83 | the code and width that register_encode accepts are recovered from the register it yields |
| Registers.RegisterEncodeInjective | src/main.rs:23-83 | no two (code, width) pairs name the same register |
| Registers.RegisterEncodeTotalOnField | src/main.rs:81 | a 3-bit field read by get_code never reaches the `Undefined value` panic |
| Decoder.ClassifyOpcodeOfField | src/main.rs:95-106 | the opcode read from the first byte is MOV exactly when the byte is 0x88..0x8B (top six bits 100010), and `Other` otherwise |
| Decoder.DecodeMode | src/main.rs:111-117 | the mod match names a mode exactly for values below 4 (the `panic!` arm otherwise), RegMode exactly for 11, and a memory mode with 8 displacement bits per step of mod |
| Decoder.DecodeModeOfField | src/main.rs:111-117 | the mod field never reaches the `Invalid value.` panic: 11 is RegMode, and 00, 01, 10 are MemMode 0, 8, 16 |
| Decoder.DecodePair | src/main.rs:95-132 | one pair decodes to a record exactly when mod = 11 (b1 >= 0xC0); otherwise it stops on the unimplemented memory mode that mod names, never on a panic |
| Decoder.DecodePairRegisterMode | src/main.rs:103-132 | in register mode the decoded record equals the Intel reading of the pair (opcode, reg and r/m from the register list for w, order by d) |
| Decoder.DecodePairOpcode | src/main.rs:103-106 | the opcode is MOV exactly when the first byte is 0x88..0x8B |
| Decoder.DecodePairSameWidth | src/main.rs:119-125 | both operands are 16-bit exactly when w = 1 |
| Decoder.EncodeRegisterMov | src/main.rs:95-132 | the encoder's bytes are a MOV first byte (0x88..0x8B) and a register-mode second byte |
| Decoder.IntelDecodeEncode | src/main.rs:95-132 | the Intel reading of an encoded register MOV gives back its operands |
| Decoder.IntelEncodeDecode | src/main.rs:95-132 | every register-mode MOV pair is the encoding, with its own d, of its Intel reading |
| Decoder.DecodeEncodeRegisterMov | src/main.rs:95-132 | decoding an encoded register MOV gives back MOV dst, src |
| Decoder.EncodeDecodeRegisterMov | src/main.rs:95-132 | re-encoding what a register-mode MOV pair decodes to (with its own d) gives back the pair |
| Decoder.Chunks | src/main.rs:94 | `chunks_exact(2)`: chunk i is bytes 2i and 2i+1, and there are length / 2 chunks |
| Decoder.ChunksIgnoreTrailingByte | src/main.rs:94 | a trailing odd byte is never part of a chunk |
| Decoder.DecodeEach | src/main.rs:94-132 | one decoding per chunk |
| Decoder.Collect | src/main.rs:94-133 | a run emits at most one record per chunk, and one for every chunk when nothing stops it |
| Decoder.CollectCharacterized | src/main.rs:94-133 | record i is decoding i, and a stopped run stops at a decoding that is its failure |
| Decoder.CollectAppend | src/main.rs:94-133 | a run over a prefix that does not stop continues with the run over the rest |
| Decoder.DecodeChunksCharacterized | src/main.rs:94-133 | record i is the decoding of chunk i; a stopped run stops at the chunk whose decoding is the failure |
| Decoder.DecodeChunksAllRegisterMode | src/main.rs:94-133 | a stream of register-mode chunks yields one record per chunk, in order, each the Intel reading of its chunk |
| Decoder.DecodeChunksStopsAtMemoryMode | src/main.rs:121-124 | the first memory-mode chunk ends the run after the records of the chunks before it, each the Intel reading of its chunk, with that chunk's mode as the failure |
| Decoder.DecodeEachAppend | src/main.rs:94 | decoding chunk by chunk commutes with concatenating chunk streams |
| Decoder.DecodeChunksAppend | src/main.rs:94-133 | the run over p + q, when p runs through, is p's records followed by the run over q |
| Decoder.Disassemble | src/main.rs:94-133 | the loop, two bytes at a time, emits exactly what DecodeChunks specifies for the chunks of its input |

## Left out

- Reading the input file (line 90), and the panic of `unwrap` when it is missing. The byte stream is a parameter of `Disassemble`.
- Printed text:
  - the `bits 16` header (line 92);
  - the rendering of the lines (lines 130-131) through `Debug`.

  The model emits `Instruction` records, already in destination-then-source order, instead of strings.
- Bits.GetCode: its own `ensures` covers only the empty range. The field it returns is stated by `Bits.GetCodeField`. Its precondition 1 <= first and 1 <= last <= 8 excludes the debug-build overflow panics, in `2_u8.pow(8)`, in `8 - last`, or in a shift by 8. It also excludes the release-build wrap-around of those operations. Every call in the source is inside that range.
- The memory modes: the source stops with `unimplemented!()` on mod = 00, 01 and 10. The model stops the run there with `Unimplemented(mode)` and keeps the records emitted so far. No memory operand, displacement or effective address is decoded.
- The other 8086 MOV forms (immediate, accumulator, direct address), displacements and variable-length instructions: the source has none of them.
- Decoder.DecodeChunks: has no `ensures` of its own. It is specified through `Collect` and the `DecodeChunksCharacterized`, `DecodeChunksAllRegisterMode`, `DecodeChunksStopsAtMemoryMode` and `DecodeChunksAppend` lemmas.
