/**
 * Serialisation of the instruction list, shared by `write_program_binary`
 * and `write_program_hex` in src/mlpas.cpp: each instruction becomes the
 * 16-bit word `((opcode & 0xF) << 12) | (packed_args & 0xFFF)`, and the two
 * bytes of each word are swapped in the `machine_code` buffer.
 *
 * The source swaps the bytes of a `uint16_t` through a byte pointer, which
 * depends on the host's byte order. The model fixes a little-endian host:
 * a stored word sits in memory low byte first, so after the swap the
 * buffer holds each word high byte first.
 */
module MachineCode {
  import opened Bits
  import opened Encoder

  type uint8 = x: int | 0 <= x < 0x100
  type uint16 = x: int | 0 <= x < 0x1_0000

  /**
   * The word stored for an instruction: the opcode's low nibble above the
   * operand field's low twelve bits. The fields do not overlap, so this is
   * `((opcode & 0xF) << 12) | (packed_args & 0xFFF)` (`WordIsOr`), and the
   * result fits the `uint16_t` it is stored into.
   */
  function Word(inst: Instruction): (w: uint16)
    ensures w / 0x1000 == inst.opcode.Value() % 16
    ensures w % 0x1000 == inst.packedArgs % 0x1000
  {
    var op := inst.opcode.Value() % 16;
    var args := inst.packedArgs % 0x1000;
    DivUnique(op * 0x1000 + args, 0x1000, op, args);
    op * 0x1000 + args
  }

  /** The source's mask, shift and OR compute `Word`. */
  lemma WordIsOr(inst: Instruction)
    ensures Or(ShiftLeft(LowBits(inst.opcode.Value(), 4), 12), LowBits(inst.packedArgs, 12)) == Word(inst)
  {
    Pow2Values();
    OrDisjoint(LowBits(inst.opcode.Value(), 4), LowBits(inst.packedArgs, 12), 12);
  }

  /**
   * A line with a known mnemonic serialises to a word whose top nibble is
   * its opcode and whose low twelve bits are its whole operand field.
   */
  lemma EncodedWordDecodes(line: ParsedLine)
    requires IsSupported(line.opcode)
    ensures Word(Encode(line)) / 0x1000 == OpCodeOf(line.opcode).Value()
    ensures Word(Encode(line)) % 0x1000 == Encode(line).packedArgs
  {
    var inst := Encode(line);
    assert inst.packedArgs < 0x1000 && inst.opcode.Value() < 16;
    WordOfField(inst);
    DivUnique(Word(inst), 0x1000, inst.opcode.Value(), inst.packedArgs);
  }

  /**
   * `UNKNOWN` (9999) masks to 0xF, so a line with an unknown mnemonic
   * serialises to 0xF000, the very word of `nop`.
   */
  lemma UnknownSerialisesAsNop(line: ParsedLine, address: int)
    requires !IsSupported(line.opcode) || line.opcode == "nop"
    ensures Word(Encode(line).(address := address)) == 0xF000
  {
    SingleMnemonic(line.opcode);
    var inst := Encode(line).(address := address);
    assert inst.opcode == UNKNOWN || inst.opcode == NOP;
    var v := inst.opcode.Value();
    if inst.opcode == UNKNOWN {
      assert v == 9999;
    } else {
      assert v == 15;
    }
    assert v % 16 == 15 && inst.packedArgs == 0;
  }

  /** A known opcode and a 12-bit field are placed side by side, unmasked. */
  lemma WordOfField(inst: Instruction)
    requires inst.opcode != UNKNOWN && inst.packedArgs < 0x1000
    ensures Word(inst) == inst.opcode.Value() * 0x1000 + inst.packedArgs
  {
    assert inst.opcode.Value() % 16 == inst.opcode.Value();
    assert inst.packedArgs % 0x1000 == inst.packedArgs;
  }

  /** The register-and-immediate field of `r1, #5` is 0x105. */
  lemma PackMovExample()
    ensures PackRegImm(1, 5) == 0x105
  {
    SmallMasks(1);
    SmallMasks(5);
    FieldFromParts(PackRegImm(1, 5));
  }

  /** The three-register field of `r1, r2, r3` is 0x123. */
  lemma PackAddrExample()
    ensures PackRegs(1, 2, 3) == 0x123
  {
    SmallMasks(1);
    SmallMasks(2);
    SmallMasks(3);
    FieldFromParts(PackRegs(1, 2, 3));
  }

  /** `mov r1, #5` is the word 0x0105, whatever its label. */
  lemma ExampleMov(labelName: string)
    ensures Word(Encode(ParsedLine("mov", labelName, 1, 0, 0, 5, ""))) == 0x0105
  {
    var inst := Encode(ParsedLine("mov", labelName, 1, 0, 0, 5, ""));
    MnemonicEntries();
    assert inst == Instruction(labelName, MOVIR, PackRegImm(1, 5), 0, "");
    PackMovExample();
    WordOfField(inst);
  }

  /** `addr r1, r2, r3` is the word 0x4123, whatever its label. */
  lemma ExampleAddr(labelName: string)
    ensures Word(Encode(ParsedLine("addr", labelName, 1, 2, 3, 0, ""))) == 0x4123
  {
    var inst := Encode(ParsedLine("addr", labelName, 1, 2, 3, 0, ""));
    MnemonicEntries();
    assert inst == Instruction(labelName, ADDRR, PackRegs(1, 2, 3), 0, "");
    PackAddrExample();
    WordOfField(inst);
  }

  /** The bytes of a word as a little-endian host stores them: low byte first. */
  function HostBytes(w: uint16): (b: seq<uint8>)
    ensures |b| == 2 && b[0] as int + 256 * b[1] as int == w
  {
    [w % 256, w / 256]
  }

  /** `std::swap` of the two bytes of one word in the buffer. */
  function SwapPair(b: seq<uint8>): (r: seq<uint8>)
    requires |b| == 2
    ensures |r| == 2 && r[0] == b[1] && r[1] == b[0]
  {
    [b[1], b[0]]
  }

  /** Swapping twice gives back the bytes one started from. */
  lemma SwapTwice(b: seq<uint8>)
    requires |b| == 2
    ensures SwapPair(SwapPair(b)) == b
  {
  }

  /** The two bytes the program emits for a word: high byte first. */
  function EmittedBytes(w: uint16): (b: seq<uint8>)
    ensures |b| == 2 && b[0] == w / 256 && b[1] == w % 256
  {
    SwapPair(HostBytes(w))
  }

  /** Reading two emitted bytes back as a word, high byte first. */
  function WordOfBytes(b: seq<uint8>): (w: uint16)
    requires |b| == 2
  {
    256 * b[0] as int + b[1] as int
  }

  /** The emitted bytes are the word high byte first: reading them back gives the word, and every byte pair is emitted by the word it spells. */
  lemma EmittedRoundTrip(w: uint16, b: seq<uint8>)
    requires |b| == 2
    ensures WordOfBytes(EmittedBytes(w)) == w
    ensures EmittedBytes(WordOfBytes(b)) == b
  {
    var v := WordOfBytes(b);
    DivUnique(v, 256, b[0], b[1]);
  }

  /** The whole `machine_code` buffer after the loop: the emitted bytes of every instruction, in order. */
  function ProgramBytes(insts: seq<Instruction>): (bytes: seq<uint8>)
    ensures |bytes| == 2 * |insts|
    decreases |insts|
  {
    if insts == [] then []
    else ProgramBytes(insts[..|insts| - 1]) + EmittedBytes(Word(insts[|insts| - 1]))
  }

  /** The bytes of the first k + 1 instructions are those of the first k followed by the emitted bytes of instruction k. */
  lemma ProgramBytesSnoc(insts: seq<Instruction>, k: nat)
    requires k < |insts|
    ensures ProgramBytes(insts[..k + 1]) == ProgramBytes(insts[..k]) + EmittedBytes(Word(insts[k]))
  {
    assert insts[..k + 1][..k] == insts[..k];
  }

  /** Instruction k occupies bytes 2k (its high byte) and 2k + 1 (its low byte). */
  lemma {:induction false} ProgramBytesAt(insts: seq<Instruction>, k: nat)
    requires k < |insts|
    ensures |ProgramBytes(insts)| == 2 * |insts|
    ensures ProgramBytes(insts)[2 * k] == Word(insts[k]) / 256
    ensures ProgramBytes(insts)[2 * k + 1] == Word(insts[k]) % 256
    decreases |insts|
  {
    var front := insts[..|insts| - 1];
    if k < |insts| - 1 {
      ProgramBytesAt(front, k);
      assert front[k] == insts[k];
    } else if front != [] {
      ProgramBytesAt(front, 0);
    }
  }

  /**
   * The loop of `write_program_binary` / `write_program_hex`: store each
   * instruction's word in the buffer, then swap that word's two bytes.
   */
  method FillMachineCode(insts: seq<Instruction>) returns (code: array<uint8>)
    ensures fresh(code)
    ensures code.Length == 2 * |insts|
    ensures code[..] == ProgramBytes(insts)
  {
    code := new uint8[2 * |insts|];
    var instCount := 0;
    while instCount < |insts|
      invariant 0 <= instCount <= |insts|
      invariant code.Length == 2 * |insts|
      invariant code[..2 * instCount] == ProgramBytes(insts[..instCount])
    {
      var w := Word(insts[instCount]);
      var hb := HostBytes(w);
      ghost var done := code[..2 * instCount];
      code[2 * instCount], code[2 * instCount + 1] := hb[0], hb[1];
      code[2 * instCount], code[2 * instCount + 1] := code[2 * instCount + 1], code[2 * instCount];
      assert code[..2 * instCount] == done;
      assert [code[2 * instCount], code[2 * instCount + 1]] == EmittedBytes(w);
      assert code[..2 * instCount + 2] == done + [code[2 * instCount], code[2 * instCount + 1]];
      ProgramBytesSnoc(insts, instCount);
      instCount := instCount + 1;
    }
    assert insts[..|insts|] == insts;
    assert code[..] == code[..2 * |insts|];
  }
}
