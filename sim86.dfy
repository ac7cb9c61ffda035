/** Model of the register file of the 8086 simulator in sim86.cpp.

    The register file is an array of fifteen 16-bit words (entry 0 unused,
    entries 1-14 AX ... FLAGS). A register access names a word and either
    the whole word (`count` 2) or one of its bytes (`offset` 0 for the low
    byte, 1 for the high byte). Executing a `mov` into a register stores the
    source value through such an access.
 */
module Sim86 {

  /** The 32-bit signed values the decoder library hands over. */
  newtype int32 = x: int | -0x8000_0000 <= x < 0x8000_0000

  /** Fourteen named registers; the table has one extra, unused entry 0. */
  const TotalRegisters: nat := 4 * 3 + 2

  /** Which register, and which part of it, an operand refers to. */
  datatype RegisterAccess = RegisterAccess(index: nat, offset: nat, count: nat)
  {
    /** A byte access to the low or the high half of a word. */
    predicate IsHalf() {
      count != 2 && (offset == 0 || offset == 1)
    }
  }

  /** Operation kinds; only `mov` is executed. */
  datatype Operation = Mov | OtherOp

  /** An instruction operand; memory operands carry nothing used here. */
  datatype Operand =
    | NoOperand
    | RegisterOperand(register: RegisterAccess)
    | MemoryOperand
    | ImmediateOperand(value: int32)

  /** A decoded instruction: the operation and its two operands. */
  datatype Instruction = Instruction(op: Operation, destination: Operand, source: Operand)

  /** What ProcessInstruction reports: done, or one of its two diagnostics. */
  datatype ExecOutcome = Executed | NotMovInstruction | UnexpectedDestination

  /** A 16-bit register word. */
  type Word = x: int | 0 <= x < 0x1_0000

  /** Conversion of a 32-bit signed value to a 16-bit unsigned one: the
      value modulo 2^16 (two's complement wrap-around). */
  function Truncate16(x: int32): (r: Word)
    ensures (r - x as int) % 0x1_0000 == 0
  {
    x as int % 0x1_0000
  }

  /** Conversion of a 16-bit word to its low 8 bits. */
  function Truncate8(x: Word): (r: int)
    ensures 0 <= r < 0x100
    ensures (r - x) % 0x100 == 0
  {
    x % 0x100
  }

  /** The value read through `acc` from the word `word`: the whole word, its
      low byte (`word & 0xff`), its high byte (`word >> 8`) or 0. */
  function ReadPart(word: Word, acc: RegisterAccess): (v: int32)
    ensures acc.count == 2 ==> v as int == word
    ensures acc.count != 2 ==> 0 <= v as int < 0x100
    ensures acc.count != 2 && !acc.IsHalf() ==> v == 0
  {
    if acc.count == 2 then
      word as int32
    else if acc.offset == 0 then
      (word % 0x100) as int32
    else if acc.offset == 1 then
      (word / 0x100) as int32
    else
      0
  }

  /** The word `word` after storing `data` through `acc`: the truncated
      value as a whole word, `(word & 0xff00) | data8` for the low byte,
      `(word & 0x00ff) | (data8 << 8)` for the high byte, or `word` itself. */
  function WritePart(word: Word, acc: RegisterAccess, data: int32): (r: Word)
    ensures acc.count != 2 && !acc.IsHalf() ==> r == word
  {
    var data16 := Truncate16(data);
    if acc.count == 2 then
      data16
    else
      var data8 := Truncate8(data16);
      if acc.offset == 0 then
        word / 0x100 * 0x100 + data8
      else if acc.offset == 1 then
        word % 0x100 + data8 * 0x100
      else
        word
  }

  /** For every byte access (any index, any count other than 2), offset 0
      reads the low byte and offset 1 the high byte, and the two reads
      recompose the word. */
  lemma HalvesRecompose(word: Word, index: nat, count: nat)
    requires count != 2
    ensures ReadPart(word, RegisterAccess(index, 0, count)) as int == word % 0x100
    ensures ReadPart(word, RegisterAccess(index, 1, count)) as int == word / 0x100
    ensures ReadPart(word, RegisterAccess(index, 1, count)) as int * 0x100 +
            ReadPart(word, RegisterAccess(index, 0, count)) as int == word
  {
  }

  /** Reading back through the same access gives the stored value, truncated
      to 16 bits for a word access and to 8 bits for a byte access. */
  lemma StoreThenRead(word: Word, acc: RegisterAccess, data: int32)
    ensures ReadPart(WritePart(word, acc, data), acc) as int ==
      if acc.count == 2 then data as int % 0x1_0000
      else if acc.IsHalf() then data as int % 0x100
      else 0
  {
    if acc.IsHalf() {
      var word16 := Truncate16(data);
      var data8 := Truncate8(word16);
      TruncateTwice(data as int);
      assert data8 == data as int % 0x100;
      var r := WritePart(word, acc, data);
      if acc.offset == 0 {
        assert r == word / 0x100 * 0x100 + data8;
        assert r % 0x100 == data8;
      } else {
        assert r == word % 0x100 + data8 * 0x100;
        assert r / 0x100 == data8;
      }
    }
  }

  /** Taking the low 16 bits and then the low 8 bits is taking the low 8 bits. */
  lemma TruncateTwice(x: int)
    ensures x % 0x1_0000 % 0x100 == x % 0x100
  {
    var q := x / 0x1_0000;
    assert x == q * 0x1_0000 + x % 0x1_0000;
    assert q * 0x1_0000 == (q * 0x100) * 0x100;
  }

  /** A byte store leaves the other byte of the word as it was. */
  lemma StoreKeepsOtherHalf(word: Word, acc: RegisterAccess, other: RegisterAccess, data: int32)
    requires acc.IsHalf() && other.IsHalf() && acc.offset != other.offset
    ensures ReadPart(WritePart(word, acc, data), other) == ReadPart(word, other)
  {
  }

  /** The register file. */
  class Machine {
    const registers: array<Word>

    ghost predicate Valid()
      reads this
    {
      registers.Length == TotalRegisters + 1
    }

    /** All registers start at zero. */
    constructor ()
      ensures Valid() && fresh(registers)
      ensures forall i :: 0 <= i < registers.Length ==> registers[i] == 0
    {
      registers := new Word[TotalRegisters + 1](_ => 0);
    }

    /** The value read through `acc` from the register file. */
    function GetDataFromRegister(acc: RegisterAccess): (v: int32)
      requires Valid() && acc.index < registers.Length
      reads this, registers
      ensures v == ReadPart(registers[acc.index], acc)
      ensures acc.count == 2 ==> v as int == registers[acc.index] as int
    {
      var reg := registers[acc.index];
      ReadPart(reg, acc)
    }

    /** Stores `data` through `acc`: only the addressed register changes,
        and only the part of it the access names. */
    method StoreDataInRegister(acc: RegisterAccess, data: int32)
      requires Valid() && acc.index < registers.Length
      modifies registers
      ensures registers[acc.index] == WritePart(old(registers[acc.index]), acc, data)
      ensures forall i :: 0 <= i < registers.Length && i != acc.index ==> registers[i] == old(registers[i])
      ensures !acc.IsHalf() && acc.count != 2 ==> registers[..] == old(registers[..])
      ensures GetDataFromRegister(acc) as int ==
        if acc.count == 2 then data as int % 0x1_0000
        else if acc.IsHalf() then data as int % 0x100
        else 0
    {
      var data16 := Truncate16(data);
      var reg := registers[acc.index];
      if acc.count == 2 {
        registers[acc.index] := data16;
      } else {
        var data8 := Truncate8(data16);
        if acc.offset == 0 {
          registers[acc.index] := reg / 0x100 * 0x100 + data8;
        } else if acc.offset == 1 {
          registers[acc.index] := reg % 0x100 + data8 * 0x100;
        }
      }
      StoreThenRead(reg, acc, data);
    }

    /** The value a `mov` takes from its source operand: an immediate's
        value, a register's (partial) value, and 0 for anything else. */
    function SourceData(source: Operand): (v: int32)
      requires Valid()
      requires source.RegisterOperand? ==> source.register.index < registers.Length
      reads this, registers
      ensures source.ImmediateOperand? ==> v == source.value
      ensures source.RegisterOperand? ==> v == GetDataFromRegister(source.register)
      ensures source.NoOperand? || source.MemoryOperand? ==> v == 0
    {
      match source
      case ImmediateOperand(value) => value
      case RegisterOperand(register) => GetDataFromRegister(register)
      case _ => 0
    }

    /** Executes `mov register, source`; any other operation, or a
        destination that is not a register, leaves the registers unchanged. */
    method ProcessInstruction(instruction: Instruction) returns (outcome: ExecOutcome)
      requires Valid()
      requires instruction.op == Mov && instruction.source.RegisterOperand? ==>
        instruction.source.register.index < registers.Length
      requires instruction.op == Mov && instruction.destination.RegisterOperand? ==>
        instruction.destination.register.index < registers.Length
      modifies registers
      ensures outcome ==
        if instruction.op != Mov then NotMovInstruction
        else if !instruction.destination.RegisterOperand? then UnexpectedDestination
        else Executed
      ensures outcome != Executed ==> registers[..] == old(registers[..])
      ensures outcome == Executed ==>
        var acc := instruction.destination.register;
        registers[..] == old(registers[..])[acc.index := WritePart(old(registers[acc.index]), acc, old(SourceData(instruction.source)))]
    {
      var destination := instruction.destination;
      var source := instruction.source;

      if instruction.op != Mov {
        outcome := NotMovInstruction;
        return;
      }
      var data: int32 := 0;
      if source.ImmediateOperand? {
        data := source.value;
      } else if source.RegisterOperand? {
        data := GetDataFromRegister(source.register);
      }
      if !destination.RegisterOperand? {
        outcome := UnexpectedDestination;
        return;
      }
      StoreDataInRegister(destination.register, data);
      outcome := Executed;
    }
  }
}
