/** Model of the 8086 `mov` decoder of asm8086_decoder.cpp.

    Only the "register/memory to/from register" encoding is decoded, and only
    in its register-to-register reading: the byte pair `100010dw mod reg r/m`
    becomes the line `mov <destination>, <source> `. The `mod` field is
    extracted but plays no part in the result, as in the source.
 */
module Asm8086Decoder {

  type Byte = bv8

  // Opcode masks used by the classification tests (raw bitwise AND).
  const OpcodeMovRegMem: Byte := 136
  const OpcodeMovImmediateToRegMem: Byte := 198
  const OpcodeMovImmediateToReg: Byte := 176

  /** The register name table: the name of register field `index` at width
      `w` (0: 8-bit, 1: 16-bit). */
  function RegName(index: Byte, w: Byte): (name: string)
    requires index < 8 && w < 2
    ensures |name| == 2
    ensures w == 0 ==> name[1] == 'l' || name[1] == 'h'
    ensures w == 1 ==> name[1] != 'l' && name[1] != 'h'
  {
    match index
    case 0 => if w == 0 then "al" else "ax"
    case 1 => if w == 0 then "cl" else "cx"
    case 2 => if w == 0 then "dl" else "dx"
    case 3 => if w == 0 then "bl" else "bx"
    case 4 => if w == 0 then "ah" else "sp"
    case 5 => if w == 0 then "ch" else "bp"
    case 6 => if w == 0 then "dh" else "si"
    case _ => if w == 0 then "bh" else "di"
  }

  /** For a fixed width, distinct register fields name distinct registers. */
  lemma RegNameInjective(i: Byte, j: Byte, w: Byte)
    requires i < 8 && j < 8 && w < 2
    ensures RegName(i, w) == RegName(j, w) <==> i == j
  {
    if i != j {
      var a, b := RegName(i, w), RegName(j, w);
      assert a[0] != b[0] || a[1] != b[1];
    }
  }

  /** The second byte of the instruction split into its three fields. */
  datatype ModRm = ModRm(mod: Byte, reg: Byte, rm: Byte)
  {
    predicate InRange() {
      mod < 4 && reg < 8 && rm < 8
    }

    /** Packs the fields back into a byte, `mod reg r/m` from high to low bits. */
    function Join(): (b: Byte)
      requires InRange()
      ensures b >> 6 == mod
    {
      (mod << 6) | (reg << 3) | rm
    }
  }

  /** Field extraction of the second byte: `mod` = bits 7-6, `reg` = bits 5-3, `r/m` = bits 2-0. */
  function SplitModRm(high: Byte): (f: ModRm)
    ensures f.InRange()
    ensures f.Join() == high
  {
    ModRm(high >> 6, (high >> 3) & 0x7, high & 0x7)
  }

  /** Splitting is the inverse of packing for in-range fields. */
  lemma SplitJoin(f: ModRm)
    requires f.InRange()
    ensures SplitModRm(f.Join()) == f
  {
  }

  /** The `w` flag: bit 0 of the opcode byte. */
  function FlagW(low: Byte): (w: Byte)
    ensures w < 2
    ensures w == 1 <==> low % 2 == 1
  {
    low & 1
  }

  /** The `d` flag: bit 1 of the opcode byte, taken as a truth value. */
  function FlagD(low: Byte): (d: bool)
    ensures d <==> (low / 2) % 2 == 1
  {
    low & 2 != 0
  }

  /** Destination and source register names of one decoded `mov`. */
  datatype MovOperands = MovOperands(destination: string, source: string)

  /** Direction resolution: with `d` set the `reg` field is the destination,
      with `d` clear it is the source and `r/m` is the destination. */
  function DecodeOperands(low: Byte, high: Byte): (m: MovOperands)
    ensures |m.destination| == 2 && |m.source| == 2
  {
    var f := SplitModRm(high);
    var w := FlagW(low);
    if FlagD(low) then
      MovOperands(RegName(f.reg, w), RegName(f.rm, w))
    else
      MovOperands(RegName(f.rm, w), RegName(f.reg, w))
  }

  /** The line emitted for the byte pair `low`, `high` (the trailing
      end-of-line is implied): `mov `, the destination, `, `, the source and
      a space. Where each part sits is stated by LineLayout, kept apart so
      that proofs about whole passes do not carry it. */
  function MovRegMemLine(low: Byte, high: Byte): (line: string)
    ensures |line| == 11
  {
    var m := DecodeOperands(low, high);
    "mov " + m.destination + ", " + m.source + " "
  }

  /** The layout of the line: `mov ` at 0-3, the destination at 4-5, `, ` at
      6-7, the source at 8-9 and a space at 10; nothing else is in it. */
  lemma LineLayout(low: Byte, high: Byte)
    ensures var line, m := MovRegMemLine(low, high), DecodeOperands(low, high);
      && line[..4] == "mov "
      && line[4..6] == m.destination
      && line[6..8] == ", "
      && line[8..10] == m.source
      && line[10..] == " "
  {
    var m := DecodeOperands(low, high);
    var line := MovRegMemLine(low, high);
    var a, b, c := "mov " + m.destination, "mov " + m.destination + ", ", "mov " + m.destination + ", " + m.source;
    assert line == c + " ";
    assert line[..10] == c && c[..8] == b && b[..6] == a;
    assert line[..4] == a[..4] == "mov ";
    assert line[4..6] == a[4..6] == m.destination;
    assert line[6..8] == b[6..8] == ", ";
    assert line[8..10] == c[8..10] == m.source;
  }

  /** Independent reference: the Intel encoding `100010dw 11 reg r/m` of
      `mov dst, src` between two registers of width `w`. With `d` = 1 the
      `reg` field holds the destination, with `d` = 0 the source. */
  function EncodeMovRegReg(dst: Byte, src: Byte, w: Byte, d: bool): (bytes: (Byte, Byte))
    requires dst < 8 && src < 8 && w < 2
    ensures bytes.0 & 0xFC == 0x88 && bytes.1 >> 6 == 3
  {
    var low := 0x88 | (if d then 2 else 0) | w;
    var high := if d then ModRm(3, dst, src).Join() else ModRm(3, src, dst).Join();
    (low, high)
  }

  /** Decoding an encoded register-to-register `mov` names the encoded
      destination first and the encoded source second, whichever direction
      bit was used. */
  lemma {:induction false} DecodeEncode(dst: Byte, src: Byte, w: Byte, d: bool)
    requires dst < 8 && src < 8 && w < 2
    ensures var (low, high) := EncodeMovRegReg(dst, src, w, d);
      DecodeOperands(low, high) == MovOperands(RegName(dst, w), RegName(src, w))
  {
    var (low, high) := EncodeMovRegReg(dst, src, w, d);
    assert FlagW(low) == w;
    assert FlagD(low) == d;
    if d {
      SplitJoin(ModRm(3, dst, src));
    } else {
      SplitJoin(ModRm(3, src, dst));
    }
  }

  /** Only the `d` and `w` bits of the first byte and the `reg` and `r/m`
      fields of the second matter: every byte pair decodes like the
      register-to-register `mov` (`100010dw 11 reg r/m`) with the same four
      fields, so DecodeEncode fixes the roles of `reg` and `r/m` for every
      byte the decode loop dispatches, 0xC6 and 0xB0-0xBF included. */
  lemma OnlyDWMatter(low: Byte, high: Byte)
    ensures DecodeOperands(low, high) == DecodeOperands(0x88 | (low & 3), (high & 0x3F) | 0xC0)
  {
  }

  /** Flipping the direction bit swaps destination and source. */
  lemma DirectionSwap(low: Byte, high: Byte)
    ensures var set_ := DecodeOperands(low | 2, high);
      var clear := DecodeOperands(low & 0xFD, high);
      set_.destination == clear.source && set_.source == clear.destination
  {
    assert FlagW(low | 2) == FlagW(low & 0xFD);
    assert FlagD(low | 2) && !FlagD(low & 0xFD);
  }

  /** The `mod` field (bits 7-6 of the second byte) never affects the line. */
  lemma ModIgnored(low: Byte, high: Byte, mod: Byte)
    requires mod < 4
    ensures MovRegMemLine(low, (high & 0x3F) | (mod << 6)) == MovRegMemLine(low, high)
  {
    var h := (high & 0x3F) | (mod << 6);
    assert SplitModRm(h).reg == SplitModRm(high).reg;
    assert SplitModRm(h).rm == SplitModRm(high).rm;
  }

  /** For a fixed opcode byte, the line determines the `reg` and `r/m` fields
      and nothing else of the second byte. */
  lemma {:induction false} LineDeterminesRegAndRm(low: Byte, h1: Byte, h2: Byte)
    ensures MovRegMemLine(low, h1) == MovRegMemLine(low, h2) <==> h1 & 0x3F == h2 & 0x3F
  {
    var f1, f2 := SplitModRm(h1), SplitModRm(h2);
    var w := FlagW(low);
    if MovRegMemLine(low, h1) == MovRegMemLine(low, h2) {
      LineLayout(low, h1);
      LineLayout(low, h2);
      var m1, m2 := DecodeOperands(low, h1), DecodeOperands(low, h2);
      assert m1.destination == MovRegMemLine(low, h1)[4..6] == m2.destination;
      assert m1.source == MovRegMemLine(low, h1)[8..10] == m2.source;
      if FlagD(low) {
        RegNameInjective(f1.reg, f2.reg, w);
        RegNameInjective(f1.rm, f2.rm, w);
      } else {
        RegNameInjective(f1.rm, f2.rm, w);
        RegNameInjective(f1.reg, f2.reg, w);
      }
      assert f1.reg == f2.reg && f1.rm == f2.rm;
      assert h1 & 0x3F == (f1.reg << 3) | f1.rm;
      assert h2 & 0x3F == (f2.reg << 3) | f2.rm;
    }
    if h1 & 0x3F == h2 & 0x3F {
      assert f1.reg == f2.reg && f1.rm == f2.rm;
    }
  }

  /** Decodes the instruction at `index`: reads the opcode byte and the
      addressing byte, advancing the cursor past both, and yields the line
      to print. The source does not check that the second byte exists;
      callers here must. */
  method ProcessMovRegMem(buffer: seq<Byte>, index: nat) returns (next: nat, line: string)
    requires index + 2 <= |buffer|
    ensures next == index + 2
    ensures line == MovRegMemLine(buffer[index], buffer[index + 1])
  {
    next := index;
    var lowByte := buffer[next];
    next := next + 1;
    var highByte := buffer[next];
    next := next + 1;

    var mod := highByte >> 6;
    var reg := (highByte >> 3) & 0x7;
    var rm := highByte & 0x7;
    var flagW := lowByte & 1;
    var flagD := lowByte & 2;

    var source, destination;
    if flagD != 0 {
      source := RegName(rm, flagW);
      destination := RegName(reg, flagW);
    } else {
      source := RegName(reg, flagW);
      destination := RegName(rm, flagW);
    }

    assert SplitModRm(highByte) == ModRm(mod, reg, rm);
    assert flagW == FlagW(lowByte) && (flagD != 0) == FlagD(lowByte);
    assert MovOperands(destination, source) == DecodeOperands(lowByte, highByte);
    line := "mov " + destination + ", " + source + " ";
  }

  /** Which branch of the classification chain a first byte takes. */
  datatype Kind = MovRegMem | MovImmediateToRegMem | MovImmediateToReg | NotMove

  /** The classification chain: raw AND tests against 136, 198 and 176 in that order. */
  function Classify(b: Byte): (k: Kind)
    ensures k == MovRegMem <==> b & 0x88 != 0
  {
    if b & OpcodeMovRegMem != 0 then MovRegMem
    else if b & OpcodeMovImmediateToRegMem != 0 then MovImmediateToRegMem
    else if b & OpcodeMovImmediateToReg != 0 then MovImmediateToReg
    else NotMove
  }

  /** What each branch really accepts: only 0x00 and 0x01 fall through to
      "not a move"; the later branches see the bits the earlier masks left. */
  lemma ClassifyCharacterized(b: Byte)
    ensures Classify(b) == NotMove <==> b <= 1
    ensures Classify(b) == MovImmediateToRegMem <==> b & 0x88 == 0 && b & 0x46 != 0
    ensures Classify(b) == MovImmediateToReg <==> b & 0xCE == 0 && b & 0x30 != 0
  {
  }

  /** Every byte of the exact pattern `100010dw` is sent to the reg/mem
      decoder, and so are bytes outside it, such as 0xC6 and 0xB0-0xBF. */
  lemma ClassifyAcceptsMore()
    ensures forall b: Byte :: b & 0xFC == 0x88 ==> Classify(b) == MovRegMem
    ensures Classify(0xC6) == MovRegMem && (0xC6 as Byte) & 0xFC != 0x88
    ensures forall b: Byte :: 0xB0 <= b <= 0xBF ==> Classify(b) == MovRegMem && b & 0xFC != 0x88
  {
  }

  /** How a decoding pass ended: the whole buffer was consumed, a first byte
      was rejected by the classification, or a reg/mem opcode was the last byte. */
  datatype Status = Completed | Rejected(kind: Kind, at: nat) | Truncated(at: nat)

  /** The lines printed and the way the pass ended. */
  datatype Trace = Trace(lines: seq<string>, status: Status)

  /** The value `processMoveOperation` returns. */
  function ExitCode(s: Status): (code: int)
    ensures code == 0 <==> s == Completed
    ensures code == 0 || code == 1
  {
    if s.Completed? then 0 else 1
  }

  /** The decoding pass from cursor `index` on, one instruction per step. */
  function Run(buffer: seq<Byte>, index: nat): (t: Trace)
    requires index <= |buffer|
    ensures t.status.Rejected? ==> index <= t.status.at < |buffer|
    ensures t.status.Truncated? ==> t.status.at == |buffer| - 1
    decreases |buffer| - index
  {
    if index == |buffer| then Trace([], Completed)
    else
      var kind := Classify(buffer[index]);
      if kind != MovRegMem then Trace([], Rejected(kind, index))
      else if index + 2 > |buffer| then Trace([], Truncated(index))
      else
        var rest := Run(buffer, index + 2);
        Trace([MovRegMemLine(buffer[index], buffer[index + 1])] + rest.lines, rest.status)
  }

  /** The decode loop. Prints one line per instruction and returns 0 when
      the cursor reaches the end of the buffer, 1 at the first byte the
      classification rejects. */
  method ProcessMoveOperation(buffer: seq<Byte>) returns (result: int, lines: seq<string>, status: Status)
    ensures Trace(lines, status) == Run(buffer, 0)
    ensures result == ExitCode(status)
  {
    var size := |buffer|;
    var index: nat := 0;
    lines := [];
    while index < size
      invariant index <= size
      invariant Run(buffer, 0) == Trace(lines + Run(buffer, index).lines, Run(buffer, index).status)
      decreases size - index
    {
      var lowByte := buffer[index];
      if lowByte & OpcodeMovRegMem != 0 {
        if index + 2 > size {
          status := Truncated(index);
          result := 1;
          return;
        }
        var line;
        ghost var rest := Run(buffer, index + 2);
        assert Run(buffer, index) == Trace([MovRegMemLine(buffer[index], buffer[index + 1])] + rest.lines, rest.status);
        index, line := ProcessMovRegMem(buffer, index);
        assert lines + Run(buffer, index - 2).lines == (lines + [line]) + rest.lines;
        lines := lines + [line];
      } else if lowByte & OpcodeMovImmediateToRegMem != 0 {
        status := Rejected(MovImmediateToRegMem, index);
        result := 1;
        return;
      } else if lowByte & OpcodeMovImmediateToReg != 0 {
        status := Rejected(MovImmediateToReg, index);
        result := 1;
        return;
      } else {
        status := Rejected(NotMove, index);
        result := 1;
        return;
      }
    }
    status := Completed;
    result := 0;
  }

  /** The k-th line of a pass from `index` decodes the byte pair at
      `index + 2k`, whose first byte passed the reg/mem test. */
  lemma {:induction false} RunLines(buffer: seq<Byte>, index: nat)
    requires index <= |buffer|
    ensures var t := Run(buffer, index);
      && index + 2 * |t.lines| <= |buffer|
      && forall k :: 0 <= k < |t.lines| ==>
           Classify(buffer[index + 2 * k]) == MovRegMem &&
           t.lines[k] == MovRegMemLine(buffer[index + 2 * k], buffer[index + 2 * k + 1])
    decreases |buffer| - index
  {
    if index < |buffer| && Classify(buffer[index]) == MovRegMem && index + 2 <= |buffer| {
      RunLines(buffer, index + 2);
      var t, rest := Run(buffer, index), Run(buffer, index + 2);
      assert t.lines == [MovRegMemLine(buffer[index], buffer[index + 1])] + rest.lines;
      forall k | 0 <= k < |t.lines|
        ensures Classify(buffer[index + 2 * k]) == MovRegMem
        ensures t.lines[k] == MovRegMemLine(buffer[index + 2 * k], buffer[index + 2 * k + 1])
      {
        if k > 0 {
          var j := k - 1;
          assert t.lines[k] == rest.lines[j];
          assert index + 2 * k == (index + 2) + 2 * j;
        }
      }
    }
  }

  /** A pass from `index` stops right after its last line: at the buffer
      end, at the first byte the reg/mem test rejects, or at a reg/mem
      opcode that is the last byte. */
  lemma {:induction false} RunStops(buffer: seq<Byte>, index: nat)
    requires index <= |buffer|
    ensures var t := Run(buffer, index);
      && (t.status.Completed? ==> index + 2 * |t.lines| == |buffer|)
      && (t.status.Rejected? ==>
            t.status.at == index + 2 * |t.lines| &&
            t.status.kind == Classify(buffer[t.status.at]) != MovRegMem)
      && (t.status.Truncated? ==>
            t.status.at == index + 2 * |t.lines| &&
            Classify(buffer[t.status.at]) == MovRegMem)
    decreases |buffer| - index
  {
    if index < |buffer| && Classify(buffer[index]) == MovRegMem && index + 2 <= |buffer| {
      RunStops(buffer, index + 2);
      var t, rest := Run(buffer, index), Run(buffer, index + 2);
      assert |t.lines| == 1 + |rest.lines| && t.status == rest.status;
    }
  }

  /** Exit code 0 exactly when the buffer has even length and every byte at
      an even offset passes the reg/mem test; the lines are then one per
      byte pair, in order. */
  lemma {:induction false} CompletedIff(buffer: seq<Byte>)
    ensures var t := Run(buffer, 0);
      ExitCode(t.status) == 0 <==>
        |buffer| % 2 == 0 &&
        forall i :: 0 <= i < |buffer| && i % 2 == 0 ==> buffer[i] & OpcodeMovRegMem != 0
    ensures var t := Run(buffer, 0);
      t.status.Completed? ==>
        |t.lines| == |buffer| / 2 &&
        forall k :: 0 <= k < |t.lines| ==> t.lines[k] == MovRegMemLine(buffer[2 * k], buffer[2 * k + 1])
  {
    RunLines(buffer, 0);
    RunStops(buffer, 0);
    var t := Run(buffer, 0);
    if t.status.Completed? {
      forall i | 0 <= i < |buffer| && i % 2 == 0
        ensures buffer[i] & OpcodeMovRegMem != 0
      {
        assert Classify(buffer[0 + 2 * (i / 2)]) == MovRegMem;
      }
    } else if t.status.Rejected? {
      var at := t.status.at;
      assert at % 2 == 0 && buffer[at] & OpcodeMovRegMem == 0;
    } else {
      assert |buffer| % 2 == 1;
    }
  }

  /** No byte after the first rejected one is examined: any buffer that
      agrees up to and including it decodes identically. */
  lemma {:induction false} RejectionIgnoresLaterBytes(buffer: seq<Byte>, other: seq<Byte>, index: nat)
    requires index <= |buffer|
    requires Run(buffer, index).status.Rejected?
    requires Run(buffer, index).status.at < |other|
    requires other[..Run(buffer, index).status.at + 1] == buffer[..Run(buffer, index).status.at + 1]
    ensures index <= |other| && Run(other, index) == Run(buffer, index)
    decreases |buffer| - index
  {
    RunLines(buffer, index);
    RunStops(buffer, index);
    var at := Run(buffer, index).status.at;
    assert index <= at;
    assert other[index] == other[..at + 1][index] == buffer[..at + 1][index] == buffer[index];
    if Classify(buffer[index]) == MovRegMem && index + 2 <= |buffer| {
      assert index + 1 < at;
      assert other[index + 1] == other[..at + 1][index + 1] == buffer[..at + 1][index + 1] == buffer[index + 1];
      RejectionIgnoresLaterBytes(buffer, other, index + 2);
    }
  }

  /** Worked examples: `89 D9` is `mov cx, bx` and `8B D9` is `mov bx, cx`;
      a lone `89` is truncated; `01` after one instruction stops the pass as
      not a move. */
  lemma Examples()
    ensures Run([0x89, 0xD9], 0) == Trace(["mov cx, bx "], Completed)
    ensures Run([0x8B, 0xD9], 0) == Trace(["mov bx, cx "], Completed)
    ensures Run([0x89], 0) == Trace([], Truncated(0))
    ensures Run([0x89, 0xD9, 0x01, 0x89], 0) == Trace(["mov cx, bx "], Rejected(NotMove, 2))
  {
    assert SplitModRm(0xD9) == ModRm(3, 3, 1);
    assert RegName(1, 1) == "cx" && RegName(3, 1) == "bx";
    assert MovRegMemLine(0x89, 0xD9) == "mov cx, bx ";
    assert MovRegMemLine(0x8B, 0xD9) == "mov bx, cx ";
  }
}
