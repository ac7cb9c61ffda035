# sim8086 in Dafny: the `mov` decoder and the simulator register file

This project models two small parts of the sim8086 repository:

- **The `mov` decoder** (`asm8086_decoder.cpp`, module `Asm8086Decoder` in
  `asm8086_decoder.dfy`). It reads a buffer of 8086 machine code and
  classifies each first byte with three raw bitwise-AND tests (masks 136,
  198, 176). It decodes the "register/memory to/from register" form
  `100010dw mod reg r/m` as a register-to-register move:
  - it splits the second byte into `mod`, `reg` and `r/m`;
  - it takes `w` and `d` from the first byte;
  - it looks both register names up in the fixed 8x2 name table;
  - it builds the line `mov <destination>, <source> `.

  The driving loop advances a cursor by two bytes per decoded instruction.
  It returns 0 when the cursor reaches the end of the buffer and 1 at the
  first byte the classification does not send to the decoder.
- **The simulator register file** (`sim86.cpp`, module `Sim86` in
  `sim86.dfy`). This is an array of fifteen 16-bit words. Entry 0 is unused;
  entries 1 to 14 hold AX ... FLAGS.
  - A register access (`index`, `offset`, `count`) reads or writes a whole
    word (`count` 2), its low byte (`offset` 0) or its high byte (`offset` 1).
  - `ProcessInstruction` executes `mov register, source`.

How the model is shaped:

- The decode loop is an imperative `while` method. It is proved equal to the
  recursive function `Run`, and the decoder's properties are proved about
  `Run`.
- The per-instruction decoder is a method that takes the cursor in and hands
  the advanced cursor back.
- The register file is a class over an `array` of words. Its methods update
  the array in place. The bit manipulation of one word sits in the pure
  functions `ReadPart` and `WritePart`.

Where the code and a fuller description of the decoder differ, the model
follows the code:

- Classification is a raw AND test, not an exact match against each
  family's bit pattern. So 0xC6 and 0xB0-0xBF also go to the reg/mem decoder,
  and only 0x00 and 0x01 are reported as "not a move operation".
- `mod` is extracted but ignored. Memory operands and displacements are not
  decoded.
- For `d` = 0 the line names the `r/m` register first. This agrees with the
  Intel encoding: `89 D9` prints `mov cx, bx`.

Additions to the code:

- The source reads the addressing byte without a bounds check. When a
  reg/mem opcode is the last byte of the buffer, the model stops with the
  status `Truncated` and exit code 1.
- `ProcessMovRegMem` requires that both of its bytes exist. Its only
  caller checks this.

## Model

| member | source | states |
|---|---|---|
| `Asm8086Decoder.RegName` | asm8086_decoder.cpp:17-26 | every table entry is a two-letter name; 8-bit names end in `l` or `h`, 16-bit names do not |
| `Asm8086Decoder.RegNameInjective` | asm8086_decoder.cpp:17-26 | for a fixed `w`, two register fields give the same name exactly when they are equal |
| `Asm8086Decoder.SplitModRm` | asm8086_decoder.cpp:32-34 | `mod` < 4, `reg` < 8, `r/m` < 8, and packing them back as `mod reg r/m` gives the second byte |
| `Asm8086Decoder.SplitJoin` | asm8086_decoder.cpp:32-34 | splitting a packed byte returns the packed fields (inverse of the packing) |
| `Asm8086Decoder.FlagW` | asm8086_decoder.cpp:35 | `w` is 0 or 1 and is 1 exactly when the opcode byte is odd (bit 0) |
| `Asm8086Decoder.FlagD` | asm8086_decoder.cpp:36 | `d` holds exactly when bit 1 of the opcode byte is set |
| `Asm8086Decoder.DecodeOperands` | asm8086_decoder.cpp:38-46 | destination and source are two-letter register names; which names they are is stated by `DecodeEncode` and `OnlyDWMatter` |
| `Asm8086Decoder.DecodeEncode` | asm8086_decoder.cpp:40-46 | for either direction bit, decoding the Intel encoding of `mov dst, src` (register to register) names `dst` as destination and `src` as source |
| `Asm8086Decoder.EncodeMovRegReg` | asm8086_decoder.cpp:8 | the reference encoding lies in the pattern `100010dw` with `mod` = 11 |
| `Asm8086Decoder.OnlyDWMatter` | asm8086_decoder.cpp:40-46 | every byte pair decodes exactly as the pair `100010dw 11 reg r/m` with the same `d`, `w`, `reg` and `r/m`: no other bit of either byte affects the operands |
| `Asm8086Decoder.DirectionSwap` | asm8086_decoder.cpp:40-46 | setting or clearing `d` exchanges destination and source |
| `Asm8086Decoder.MovRegMemLine` | asm8086_decoder.cpp:48-51 | the line is eleven characters long |
| `Asm8086Decoder.LineLayout` | asm8086_decoder.cpp:48-51 | the line is `mov ` at 0-3, the destination at 4-5, `, ` at 6-7, the source at 8-9 and a space at 10 |
| `Asm8086Decoder.ModIgnored` | asm8086_decoder.cpp:32-51 | changing the `mod` bits of the second byte never changes the line |
| `Asm8086Decoder.LineDeterminesRegAndRm` | asm8086_decoder.cpp:32-51 | for a fixed opcode byte, two second bytes give the same line if and only if their `reg` and `r/m` fields agree |
| `Asm8086Decoder.ProcessMovRegMem` | asm8086_decoder.cpp:28-52 | consumes exactly two bytes (cursor + 2) and yields the line for that byte pair |
| `Asm8086Decoder.Classify` | asm8086_decoder.cpp:63-81 | a byte goes to the reg/mem decoder exactly when `byte & 136 != 0` |
| `Asm8086Decoder.ClassifyCharacterized` | asm8086_decoder.cpp:63-81 | "not a move" exactly for 0x00 and 0x01; the two "not implemented" branches take exactly the bytes their masks see after the earlier tests |
| `Asm8086Decoder.ClassifyAcceptsMore` | asm8086_decoder.cpp:63 | every `100010dw` byte goes to the reg/mem decoder, and so do 0xC6 and 0xB0-0xBF, which are outside that pattern |
| `Asm8086Decoder.ExitCode` | asm8086_decoder.cpp:58-84 | the result is 0 or 1, and 0 exactly for a completed pass |
| `Asm8086Decoder.Run` | asm8086_decoder.cpp:58-84 | a rejection lies between the start cursor and the end of the buffer; a truncation is at the last byte |
| `Asm8086Decoder.ProcessMoveOperation` | asm8086_decoder.cpp:58-84 | the loop terminates (cursor + 2 per dispatch); the lines printed and the way it stops are those of `Run` from cursor 0, and the result is their exit code |
| `Asm8086Decoder.RunLines` | asm8086_decoder.cpp:61-66 | the k-th line decodes the byte pair at offset 2k from the start, whose first byte passed the reg/mem test |
| `Asm8086Decoder.RunStops` | asm8086_decoder.cpp:61-83 | the pass stops right after its last line: at the buffer end, at the first rejected byte (with that byte's branch), or at a reg/mem opcode that is the last byte |
| `Asm8086Decoder.CompletedIff` | asm8086_decoder.cpp:61-83 | result 0 if and only if the length is even and every byte at an even offset passes `& 136`; the lines are then one per byte pair, in order |
| `Asm8086Decoder.RejectionIgnoresLaterBytes` | asm8086_decoder.cpp:66-81 | after a rejection, any buffer that agrees up to and including the rejected byte decodes to the same lines and status |
| `Asm8086Decoder.Examples` | asm8086_decoder.cpp:28-84 | `89 D9` gives `mov cx, bx`, `8B D9` gives `mov bx, cx`, a lone `89` is truncated, and `01` stops the pass after the lines before it |
| `Sim86.Truncate16` | sim86.cpp:51 | the result is a 16-bit word congruent to the 32-bit value modulo 2^16 |
| `Sim86.Truncate8` | sim86.cpp:59 | the result is below 256 and congruent to the word modulo 256 |
| `Sim86.ReadPart` | sim86.cpp:36-48 | a word access returns the whole word; a byte access returns a value below 256, and 0 unless the offset is 0 or 1 |
| `Sim86.HalvesRecompose` | sim86.cpp:41-46 | for every register index and every byte access (`count` other than 2), offset 0 reads `word % 256`, offset 1 reads `word / 256`, and high byte * 256 + low byte gives back the word |
| `Sim86.WritePart` | sim86.cpp:50-68 | a byte access with an offset other than 0 or 1 leaves the word unchanged |
| `Sim86.StoreThenRead` | sim86.cpp:36-68 | reading back through the same access gives the stored value modulo 2^16 (word) or 2^8 (byte), and 0 for other offsets |
| `Sim86.StoreKeepsOtherHalf` | sim86.cpp:59-64 | a byte store leaves the other byte of the word unchanged |
| `Sim86.Machine.constructor` | sim86.cpp:7 | fifteen registers, all zero |
| `Sim86.Machine.GetDataFromRegister` | sim86.cpp:36-48 | reads the addressed register through the access; a word access returns its whole value |
| `Sim86.Machine.StoreDataInRegister` | sim86.cpp:50-68 | only the addressed register changes, as `WritePart` says; other offsets change nothing; reading back gives the truncated value |
| `Sim86.Machine.SourceData` | sim86.cpp:80-85 | an immediate gives its value, a register its (partial) value, anything else 0 |
| `Sim86.Machine.ProcessInstruction` | sim86.cpp:70-92 | an operation other than `mov`, or a destination that is not a register, changes nothing and is reported; otherwise only the destination register changes, by storing the source value read before the store |

## Left out

- Both `main` functions are not modelled: argument handling, file reading, the `bits 16` header and the console messages (asm8086_decoder.cpp:86-112, sim86.cpp:94-143). Printed lines are returned as a sequence of strings without the end-of-line, and the diagnostics are returned as the `Status` and `ExecOutcome` values.
- The simulator's decode loop and library version check (sim86.cpp:96-99, 122-137) are not modelled. They call a decoding library that is not part of this model.
- `PrintAllRegisters` and the `register_string` table (sim86.cpp:9-34) are not modelled: they only format output.
- `processMovImmediateReg` (asm8086_decoder.cpp:54-56) is not modelled: it is empty and never called.
- part2/haversine_generator.cpp is not modelled: it is floating point and random numbers, with nothing shared with the decoder.
- The unused `mod_*` constants (asm8086_decoder.cpp:12-15) are not modelled. Memory addressing, displacements and immediate moves are not in the code, so they are not in the model.
- Asm8086Decoder.MovRegMemLine: its own contract states only the length of the line; the position of each part is stated by the lemma `LineLayout`, kept apart so that proofs about whole passes stay small.
- Asm8086Decoder.ProcessMovRegMem: requires both bytes to exist. The source reads them unchecked, and reading past the end is undefined. The decode loop checks this first and stops with `Truncated` (exit code 1), which is an addition to the code.
- Sim86.Machine.StoreDataInRegister: requires the register index to lie in the 15-entry array, which the decoding library guarantees. `GetDataFromRegister` and `ProcessInstruction` require the same for the operands they touch.
- The fields of `register_access` are 32-bit unsigned in the source. They are unbounded naturals here, since only comparisons with 0, 1 and 2 and the array index use them.
- The shift and mask operations on register words (`& 0xff`, `>> 8`, `& 0xff00`, `<< 8`) are written as the equivalent division and remainder by 256 on integers in 0..65535.
- Operation kinds other than `mov` are one constructor, `OtherOp`. Memory operands carry no address fields, because nothing here reads them.
