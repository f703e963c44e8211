/**
 * The IL byte stream of a method body as the Method Uses scan reads it: opcodes of one byte,
 * or two bytes after the 0xFE prefix, each followed by an operand whose size the opcode fixes
 * (ECMA-335 Partition III, sections 1.2.1 and 1.9), and the `switch` operand, a 4-byte count N
 * followed by N 4-byte targets. Reading past the end of the stream is an error.
 */
module ILReader {
  import opened Wrappers
  import opened TypeSystem

  datatype OpCode = OneByte(code: byte) | TwoByte(code: byte)

  /** How many operand bytes follow an opcode. */
  datatype OperandSize = Fixed(width: nat) | Switch

  const Prefix: byte := 0xFE

  /** The opcodes whose operand is a metadata token naming a method, field or type. */
  predicate IsTokenOpCode(op: OpCode)
    ensures IsTokenOpCode(op) ==> OperandSizeOf(op) == Fixed(4)
  {
    match op
    case OneByte(b) =>
      b == 0x28 || b == 0x6F || b == 0x73 || b == 0xD0 || (0x7B <= b <= 0x80)
    case TwoByte(b) => b == 0x06 || b == 0x07
  }

  /**
   * The operand size of every opcode; an undefined opcode has none. One-byte operands are the
   * short variable, short branch and `ldc.i4.s` forms; two-byte ones the long variable forms.
   */
  function OperandSizeOf(op: OpCode): (r: OperandSize)
    ensures r.Fixed? ==> r.width in {0, 1, 2, 4, 8}
    ensures r.Switch? <==> op == OneByte(0x45)
  {
    match op
    case OneByte(b) =>
      if (0x0E <= b <= 0x13) || b == 0x1F || (0x2B <= b <= 0x37) || b == 0xDE then Fixed(1)
      else if b == 0x21 || b == 0x23 then Fixed(8)
      else if b == 0x20 || b == 0x22 || (0x27 <= b <= 0x29) || (0x38 <= b <= 0x44)
           || (0x6F <= b <= 0x75) || b == 0x79 || (0x7B <= b <= 0x81) || b == 0x8C || b == 0x8D
           || b == 0x8F || (0xA3 <= b <= 0xA5) || b == 0xC2 || b == 0xC6 || b == 0xD0 || b == 0xDD
      then Fixed(4)
      else if b == 0x45 then Switch
      else Fixed(0)
    case TwoByte(b) =>
      if b == 0x06 || b == 0x07 || b == 0x15 || b == 0x16 || b == 0x1C then Fixed(4)
      else if 0x09 <= b <= 0x0E then Fixed(2)
      else if b == 0x12 || b == 0x19 then Fixed(1)
      else Fixed(0)
  }

  /** Four bytes read as a little-endian unsigned 32-bit value. */
  function ReadUInt32(b: seq<byte>): (v: nat)
    requires |b| == 4
    ensures v < 0x1_0000_0000
  {
    (b[0] as nat) + 0x100 * (b[1] as nat) + 0x1_0000 * (b[2] as nat) + 0x100_0000 * (b[3] as nat)
  }

  /**
   * The bytes a `switch` skips after its count: four times the count in unsigned 32-bit
   * arithmetic, then read as a signed offset. The model reads only forward: a negative offset
   * gives None and the reading stops there (the source's cursor moves back; see `StepAsWritten`).
   */
  function SwitchSkip(count: nat): Option<nat>
    requires count < 0x1_0000_0000
  {
    var skip := (count * 4) % 0x1_0000_0000;
    if skip < 0x8000_0000 then Some(skip) else None
  }

  /**
   * Where the source's reader stands after the instruction at `pos`, or None where it throws:
   * the opcode or a fixed operand runs past the end, or the cursor would leave the stream. The
   * `switch` skip is added to the cursor as a signed 32-bit value, and the cursor refuses only a
   * position outside 0 to the stream's length, so a negative skip that stays inside moves it back.
   */
  function StepAsWritten(code: seq<byte>, pos: nat): (r: Option<nat>)
    requires pos < |code|
    ensures r.Some? ==> r.value <= |code|
  {
    var two := code[pos] == Prefix;
    if two && pos + 2 > |code| then None
    else
      var op := if two then TwoByte(code[pos + 1]) else OneByte(code[pos]);
      var at := pos + |OpBytes(op)|;
      match OperandSizeOf(op)
      case Fixed(w) => if at + w <= |code| then Some(at + w) else None
      case Switch =>
        if at + 4 > |code| then None
        else
          var target := at + 4 + ToInt32((ReadUInt32(code[at..at + 4]) * 4) % 0x1_0000_0000);
          if 0 <= target <= |code| then Some(target) else None
  }

  /** The cursor after `n` turns of the scan loop as written, which ends once the cursor reaches the end. */
  function WalkAsWritten(code: seq<byte>, pos: nat, n: nat): Option<nat>
    requires pos <= |code|
    decreases n
  {
    if n == 0 || pos == |code| then Some(pos)
    else
      match StepAsWritten(code, pos)
      case None => None
      case Some(q) => WalkAsWritten(code, q, n - 1)
  }

  /** One decoded instruction: the opcode and its operand bytes. */
  datatype Instr = Instr(op: OpCode, operand: seq<byte>)

  function OpBytes(op: OpCode): seq<byte>
  {
    match op
    case OneByte(b) => [b]
    case TwoByte(b) => [Prefix, b]
  }

  /** The bytes an instruction occupies in the stream. */
  function Raw(i: Instr): seq<byte>
  {
    OpBytes(i.op) + i.operand
  }

  /** An instruction the reader can produce: no bare prefix, and an operand of the opcode's size. */
  predicate WellFormed(i: Instr)
  {
    && (i.op.OneByte? ==> i.op.code != Prefix)
    && match OperandSizeOf(i.op)
       case Fixed(w) => |i.operand| == w
       case Switch =>
         && |i.operand| >= 4
         && var skip := SwitchSkip(ReadUInt32(i.operand[..4]));
            skip.Some? && |i.operand| == 4 + skip.value
  }

  /** The token operand of a token instruction. */
  function TokenOf(i: Instr): (t: nat)
    requires IsTokenOpCode(i.op) && |i.operand| == 4
    ensures t < 0x1_0000_0000
  {
    ReadUInt32(i.operand)
  }

  /**
   * Reads the instruction at the head of a non-empty stream; None where the source's reader
   * throws because the opcode or operand runs past the end, and where a `switch` skip is
   * negative, which the model takes as the end of what can be read.
   */
  function DecodeFirst(code: seq<byte>): (r: Option<Instr>)
    requires |code| > 0
    ensures r.Some? ==> WellFormed(r.value) && |Raw(r.value)| <= |code| && code[..|Raw(r.value)|] == Raw(r.value)
  {
    var two := code[0] == Prefix;
    if two && |code| < 2 then None
    else
      var op := if two then TwoByte(code[1]) else OneByte(code[0]);
      var rest := if two then code[2..] else code[1..];
      assert code == OpBytes(op) + rest;
      match OperandSizeOf(op)
      case Fixed(w) =>
        if w > |rest| then None
        else
          assert code[..|OpBytes(op)| + w] == OpBytes(op) + rest[..w];
          Some(Instr(op, rest[..w]))
      case Switch =>
        if |rest| < 4 then None
        else
          var skip := SwitchSkip(ReadUInt32(rest[..4]));
          if skip.None? || 4 + skip.value > |rest| then None
          else
            var operand := rest[..4 + skip.value];
            assert operand[..4] == rest[..4];
            assert code[..|OpBytes(op)| + |operand|] == OpBytes(op) + operand;
            Some(Instr(op, operand))
  }

  /** The concatenated bytes of a sequence of instructions. */
  function Flatten(xs: seq<Instr>): seq<byte>
  {
    if |xs| == 0 then [] else Raw(xs[0]) + Flatten(xs[1..])
  }

  /** The result of reading a whole stream: the instructions read, and whether the end was reached without error. */
  datatype Decoded = Decoded(instrs: seq<Instr>, complete: bool)

  /**
   * Reads instructions until the stream is used up or a read fails. The instructions read are
   * well formed and lay out the stream exactly when decoding completes, and a proper prefix of
   * it when a read failed.
   */
  function Decode(code: seq<byte>): (d: Decoded)
    ensures forall k :: 0 <= k < |d.instrs| ==> WellFormed(d.instrs[k])
    ensures d.complete ==> Flatten(d.instrs) == code
    ensures !d.complete ==> |Flatten(d.instrs)| < |code| && code[..|Flatten(d.instrs)|] == Flatten(d.instrs)
    decreases |code|
  {
    if |code| == 0 then Decoded([], true)
    else
      match DecodeFirst(code)
      case None => Decoded([], false)
      case Some(i) =>
        var tail := Decode(code[|Raw(i)|..]);
        LayoutCons(code, i, tail);
        Decoded([i] + tail.instrs, tail.complete)
  }

  /** A successful read at the front is followed by the decoding of the bytes after it. */
  lemma DecodeCons(code: seq<byte>, i: Instr)
    requires |code| > 0 && DecodeFirst(code) == Some(i)
    ensures Decode(code) == Decoded([i] + Decode(code[|Raw(i)|..]).instrs, Decode(code[|Raw(i)|..]).complete)
  {
  }

  /** An instruction read off the front, followed by the decoding of the rest, lays out the stream as that rest does. */
  lemma LayoutCons(code: seq<byte>, i: Instr, tail: Decoded)
    requires WellFormed(i) && |Raw(i)| <= |code| && code[..|Raw(i)|] == Raw(i)
    requires forall k :: 0 <= k < |tail.instrs| ==> WellFormed(tail.instrs[k])
    requires tail.complete ==> Flatten(tail.instrs) == code[|Raw(i)|..]
    requires !tail.complete ==>
      |Flatten(tail.instrs)| < |code[|Raw(i)|..]| && code[|Raw(i)|..][..|Flatten(tail.instrs)|] == Flatten(tail.instrs)
    ensures forall k :: 0 <= k < |[i] + tail.instrs| ==> WellFormed(([i] + tail.instrs)[k])
    ensures tail.complete ==> Flatten([i] + tail.instrs) == code
    ensures !tail.complete ==>
      |Flatten([i] + tail.instrs)| < |code| && code[..|Flatten([i] + tail.instrs)|] == Flatten([i] + tail.instrs)
  {
    var n := |Raw(i)|;
    FlattenCons(i, tail.instrs);
    assert code == Raw(i) + code[n..];
    if !tail.complete {
      assert code[..n + |Flatten(tail.instrs)|] == Raw(i) + code[n..][..|Flatten(tail.instrs)|];
    }
  }

  /** The reader recognises any well-formed instruction at the head of a stream. */
  lemma {:induction false} DecodeFirstRaw(i: Instr, rest: seq<byte>)
    requires WellFormed(i)
    ensures DecodeFirst(Raw(i) + rest) == Some(i)
  {
    match OperandSizeOf(i.op)
    case Fixed(w) => DecodeFixedRaw(i, rest, w);
    case Switch => DecodeSwitchRaw(i, rest);
  }

  lemma DecodeFixedRaw(i: Instr, rest: seq<byte>, w: nat)
    requires WellFormed(i) && OperandSizeOf(i.op) == Fixed(w)
    ensures DecodeFirst(Raw(i) + rest) == Some(i)
  {
    var after := i.operand + rest;
    assert Raw(i) + rest == OpBytes(i.op) + after;
    assert after[..w] == i.operand;
  }

  lemma DecodeSwitchRaw(i: Instr, rest: seq<byte>)
    requires WellFormed(i) && OperandSizeOf(i.op) == Switch
    ensures DecodeFirst(Raw(i) + rest) == Some(i)
  {
    var after := i.operand + rest;
    assert Raw(i) + rest == OpBytes(i.op) + after;
    assert after[..4] == i.operand[..4];
    assert after[..|i.operand|] == i.operand;
  }

  lemma {:induction false} FlattenCons(i: Instr, xs: seq<Instr>)
    ensures Flatten([i] + xs) == Raw(i) + Flatten(xs)
  {
    assert ([i] + xs)[1..] == xs;
  }

  /** Decoding the bytes of well-formed instructions gives back those instructions, completely. */
  lemma {:induction false} DecodeFlatten(xs: seq<Instr>)
    requires forall k :: 0 <= k < |xs| ==> WellFormed(xs[k])
    ensures Decode(Flatten(xs)) == Decoded(xs, true)
    decreases |xs|
  {
    if |xs| > 0 {
      var code := Flatten(xs);
      FlattenCons(xs[0], xs[1..]);
      assert xs == [xs[0]] + xs[1..];
      assert code == Raw(xs[0]) + Flatten(xs[1..]);
      DecodeFirstRaw(xs[0], Flatten(xs[1..]));
      assert code[|Raw(xs[0])|..] == Flatten(xs[1..]);
      DecodeFlatten(xs[1..]);
    }
  }

  /** Re-encoding what was decoded gives back the decoded bytes. */
  lemma DecodeFlattenComplete(code: seq<byte>)
    ensures Decode(code).complete ==> Decode(Flatten(Decode(code).instrs)) == Decode(code)
  {
    if Decode(code).complete {
      DecodeFlatten(Decode(code).instrs);
    }
  }

  /**
   * The scan has read the instructions `done` and stands at byte `pos`; when `ok`, the rest of
   * the stream decodes to the rest of the instructions, and otherwise a read has failed.
   */
  ghost predicate Reading(code: seq<byte>, pos: nat, done: seq<Instr>, ok: bool)
  {
    pos <= |code| && Decode(code) == Resumed(done, ok, Decode(code[pos..]))
  }

  /** The decoding of a whole stream, from the instructions read so far and the decoding of the rest. */
  function Resumed(done: seq<Instr>, ok: bool, rest: Decoded): Decoded
  {
    if ok then Decoded(done + rest.instrs, rest.complete) else Decoded(done, false)
  }

  lemma ReadingStart(code: seq<byte>)
    ensures Reading(code, 0, [], true)
  {
    assert code[0..] == code;
  }

  lemma ConcatAssoc<T>(a: seq<T>, b: seq<T>, c: seq<T>)
    ensures a + (b + c) == (a + b) + c
  {
  }

  lemma DropDrop<T>(s: seq<T>, a: nat, b: nat)
    requires a + b <= |s|
    ensures s[a..][b..] == s[a + b..]
  {
  }

  /** Reading one instruction off the front of the rest leaves the decoding of what follows. */
  lemma ReadingStep(code: seq<byte>, pos: nat, done: seq<Instr>, i: Instr, pos': nat, done': seq<Instr>)
    requires Reading(code, pos, done, true) && pos < |code| && DecodeFirst(code[pos..]) == Some(i)
    requires pos' == pos + |Raw(i)| && done' == done + [i]
    ensures pos < pos' <= |code|
    ensures Reading(code, pos', done', true)
  {
    var rest := code[pos..];
    DecodeCons(rest, i);
    DropDrop(code, pos, |Raw(i)|);
    assert rest[|Raw(i)|..] == code[pos'..];
    var tail := Decode(code[pos'..]);
    ResumedCons(done, i, tail, Decode(rest));
  }

  /** Resuming after one more instruction gives the same whole decoding. */
  lemma ResumedCons(done: seq<Instr>, i: Instr, tail: Decoded, rest: Decoded)
    requires rest == Decoded([i] + tail.instrs, tail.complete)
    ensures Resumed(done, true, rest) == Resumed(done + [i], true, tail)
  {
    ConcatAssoc(done, [i], tail.instrs);
  }

  /** A read that fails ends the decoding there. */
  lemma ReadingFail(code: seq<byte>, pos: nat, done: seq<Instr>)
    requires Reading(code, pos, done, true) && pos < |code| && DecodeFirst(code[pos..]).None?
    ensures Reading(code, pos, done, false)
  {
  }

  /** At the end of the stream, or after a failed read, the instructions read are the decoding. */
  lemma ReadingEnd(code: seq<byte>, pos: nat, done: seq<Instr>, ok: bool)
    requires Reading(code, pos, done, ok) && (pos == |code| || !ok)
    ensures Decode(code) == Decoded(done, ok)
  {
    if ok {
      assert code[pos..] == [];
    }
  }

  /**
   * Where the model reads an instruction, the source's reader moves to just after it; so the
   * source's cursor moves back or stays put only where the model has stopped reading.
   */
  lemma StepAsWrittenAgrees(code: seq<byte>, pos: nat)
    requires pos < |code|
    ensures DecodeFirst(code[pos..]).Some? ==> StepAsWritten(code, pos) == Some(pos + |Raw(DecodeFirst(code[pos..]).value)|)
    ensures StepAsWritten(code, pos).Some? && StepAsWritten(code, pos).value <= pos ==> DecodeFirst(code[pos..]).None?
  {
    if DecodeFirst(code[pos..]).Some? {
      if code[pos] == 0x45 {
        AgreesSwitch(code, pos);
      } else {
        AgreesFixed(code, pos);
      }
    }
  }

  lemma AgreesSwitch(code: seq<byte>, pos: nat)
    requires pos < |code| && code[pos] == 0x45 && DecodeFirst(code[pos..]).Some?
    ensures StepAsWritten(code, pos) == Some(pos + |Raw(DecodeFirst(code[pos..]).value)|)
  {
    var rest := code[pos..];
    assert rest[0] == 0x45;
    assert |rest| >= 5;
    assert rest[1..][..4] == code[pos + 1..pos + 5];
  }

  lemma AgreesFixed(code: seq<byte>, pos: nat)
    requires pos < |code| && code[pos] != 0x45 && DecodeFirst(code[pos..]).Some?
    ensures StepAsWritten(code, pos) == Some(pos + |Raw(DecodeFirst(code[pos..]).value)|)
  {
    var rest := code[pos..];
    assert rest[0] == code[pos];
    if code[pos] == Prefix {
      assert rest[1] == code[pos + 1];
    }
  }

  /** Three `nop`s, then a `switch` whose count 0xFFFFFFFE makes a skip of -8 bytes, back to the start. */
  predicate IsRewindingBody(b: seq<byte>)
  {
    && |b| == 8 && b[0] == 0x00 && b[1] == 0x00 && b[2] == 0x00 && b[3] == 0x45
    && b[4] == 0xFE && b[5] == 0xFF && b[6] == 0xFF && b[7] == 0xFF
  }

  /** The count 0xFFFFFFFE times four, as a signed 32-bit value, is -8: a negative skip the model refuses. */
  lemma RewindingCount(count: seq<byte>)
    requires count == [0xFE, 0xFF, 0xFF, 0xFF]
    ensures ReadUInt32(count) == 0xFFFF_FFFE
    ensures ToInt32((ReadUInt32(count) * 4) % 0x1_0000_0000) == -8
    ensures SwitchSkip(ReadUInt32(count)).None?
  {
    assert (0xFFFF_FFFE * 4) % 0x1_0000_0000 == 0xFFFF_FFF8;
  }

  lemma RewindingSteps(body: seq<byte>)
    requires IsRewindingBody(body)
    ensures StepAsWritten(body, 0) == Some(1) && StepAsWritten(body, 1) == Some(2)
    ensures StepAsWritten(body, 2) == Some(3) && StepAsWritten(body, 3) == Some(0)
  {
    RewindingCount(body[4..8]);
  }

  /**
   * As written, the scan of that body never ends: after any number of turns the cursor is back
   * among the first four bytes, short of the end, and no read throws. The model stops at the
   * `switch` with the body marked incomplete.
   */
  lemma SwitchRewindsForever(body: seq<byte>, n: nat)
    requires IsRewindingBody(body)
    ensures WalkAsWritten(body, 0, n).Some? && WalkAsWritten(body, 0, n).value < 4 < |body|
    ensures Decode(body) == Decoded([Nop, Nop, Nop], false)
  {
    RewindingSteps(body);
    RewindingCycle(body, 0, n);
    RewindingStops(body);
  }

  const Nop := Instr(OneByte(0), [])

  /** The model reads the three `nop`s and stops at the `switch`. */
  lemma RewindingStops(body: seq<byte>)
    requires IsRewindingBody(body)
    ensures Decode(body) == Decoded([Nop, Nop, Nop], false)
  {
    DecodeSwitchStop(body[3..]);
    assert body[2..][1..] == body[3..] && body[1..][1..] == body[2..];
    DecodeNop(body[2..]);
    DecodeNop(body[1..]);
    DecodeNop(body);
  }

  /** A stream that starts with a `nop` decodes to that `nop` and the decoding of the rest. */
  lemma DecodeNop(code: seq<byte>)
    requires |code| > 0 && code[0] == 0x00
    ensures Decode(code) == Decoded([Nop] + Decode(code[1..]).instrs, Decode(code[1..]).complete)
  {
    assert DecodeFirst(code) == Some(Nop);
    DecodeCons(code, Nop);
  }

  /** A `switch` with count 0xFFFFFFFE at the front ends the model's decoding there. */
  lemma DecodeSwitchStop(code: seq<byte>)
    requires |code| >= 5 && code[0] == 0x45 && code[1] == 0xFE && code[2] == 0xFF && code[3] == 0xFF && code[4] == 0xFF
    ensures Decode(code) == Decoded([], false)
  {
    RewindingCount(code[1..][..4]);
    assert DecodeFirst(code) == None;
  }

  /** A stream whose first four positions step round in a cycle keeps the loop's cursor among them, short of the end. */
  lemma {:induction false} RewindingCycle(code: seq<byte>, k: nat, n: nat)
    requires 4 < |code| && k < 4
    requires StepAsWritten(code, 0) == Some(1) && StepAsWritten(code, 1) == Some(2)
    requires StepAsWritten(code, 2) == Some(3) && StepAsWritten(code, 3) == Some(0)
    ensures WalkAsWritten(code, k, n).Some? && WalkAsWritten(code, k, n).value < 4
    decreases n
  {
    if n > 0 {
      if k == 0 {
        WalkStep(code, 0, n, 1);
        RewindingCycle(code, 1, n - 1);
      } else if k == 1 {
        WalkStep(code, 1, n, 2);
        RewindingCycle(code, 2, n - 1);
      } else if k == 2 {
        WalkStep(code, 2, n, 3);
        RewindingCycle(code, 3, n - 1);
      } else {
        WalkStep(code, 3, n, 0);
        RewindingCycle(code, 0, n - 1);
      }
    }
  }

  lemma WalkStep(code: seq<byte>, pos: nat, n: nat, next: nat)
    requires pos < |code| && n > 0 && StepAsWritten(code, pos) == Some(next)
    ensures WalkAsWritten(code, pos, n) == WalkAsWritten(code, next, n - 1)
  {
  }
}
