/**
 * The instruction model and the per-line encoder of src/mlpas.cpp:
 * the `OpCode` enum, the `Instruction` record, the `ParsedLine` record the
 * grammar front end hands over, and `encodeInstruction`.
 *
 * `ParsedLine` is declared by the grammar front end, which is not part of
 * this model; its operand slots are taken to be integers and modelled as
 * `int`, which also covers unsigned slots, since only their masked low bits
 * are used. `packed_args` is an `unsigned int`, modelled as `nat` (every value the
 * encoder and pass 2 produce is below 4096, far from the 32-bit limit).
 * Masks, shifts and ORs are the operations of module Bits.
 */
module Encoder {
  import opened Bits

  /** The enumerators of `OpCode`; `Value` gives the number each one stands for. */
  datatype OpCode = MOVIR | LOAD | STORE | ADDRR | ADDI | SUBRR | SUBI | JNZI | JZR | NOP | UNKNOWN
  {
    function Value(): (v: int)
      ensures 0 <= v
      ensures v < 16 <==> this != UNKNOWN
    {
      match this
      case MOVIR => 0
      case LOAD => 2
      case STORE => 3
      case ADDRR => 4
      case ADDI => 5
      case SUBRR => 6
      case SUBI => 7
      case JNZI => 8
      case JZR => 9
      case NOP => 15
      case UNKNOWN => 9999
    }
  }

  /** One line as delivered by the grammar front end: the fields the encoder reads. */
  datatype ParsedLine = ParsedLine(
    opcode: string,
    labelName: string,
    arg0Reg: int,
    arg1Reg: int,
    arg2Reg: int,
    arg1Imm: int,
    arg0Label: string)

  /** An encoded instruction: `label`, `opcode`, `packed_args`, `address`, `target_label`. */
  datatype Instruction = Instruction(
    labelName: string,
    opcode: OpCode,
    packedArgs: nat,
    address: int,
    targetLabel: string)

  /** The record every line starts from, and the one an unsupported mnemonic keeps. */
  const Placeholder: Instruction := Instruction("", UNKNOWN, 0, 0, "")

  /**
   * The mnemonics the if-chain of `encodeInstruction` tests, each with the
   * opcode it selects. The nine words are distinct, so the order of the
   * tests has no effect. `jz` is not among them, although the layout table
   * in the source lists it.
   */
  const Mnemonics: map<string, OpCode> := map[
    "addi" := ADDI, "addr" := ADDRR, "subi" := SUBI, "subr" := SUBRR, "jnz" := JNZI,
    "mov" := MOVIR, "nop" := NOP, "load" := LOAD, "store" := STORE]

  predicate IsSupported(mnemonic: string)
  {
    mnemonic in Mnemonics
  }

  /** The opcode `encodeInstruction` selects for a mnemonic: `UNKNOWN` when no test matches. */
  function OpCodeOf(mnemonic: string): (op: OpCode)
    ensures op == UNKNOWN <==> !IsSupported(mnemonic)
    ensures op != JZR
  {
    assert UNKNOWN !in Mnemonics.Values && JZR !in Mnemonics.Values;
    if mnemonic in Mnemonics then Mnemonics[mnemonic] else UNKNOWN
  }

  /** `x & 0xF`. */
  function Nibble(x: int): (r: nat)
    ensures r < 16
  {
    LowBits(x, 4)
  }

  /** `x & 0xFF`. */
  function LowByte(x: int): (r: nat)
    ensures r < 256
  {
    LowBits(x, 8)
  }

  /** Small non-negative values pass the nibble and byte masks unchanged. */
  lemma SmallMasks(x: nat)
    requires x < 16
    ensures Nibble(x) == x && LowByte(x) == x
  {
    Pow2Values();
  }

  /** Bits 11..8 of a packed operand field: the first register. */
  function HighNibble(p: nat): nat { (p / 256) % 16 }

  /** Bits 7..4 of a packed operand field: the second register. */
  function MiddleNibble(p: nat): nat { (p / 16) % 16 }

  /** Bits 3..0 of a packed operand field: the third register. */
  function LowNibble(p: nat): nat { p % 16 }

  /** Bits 7..0 of a packed operand field: the immediate or the jump address. */
  function ImmediateByte(p: nat): nat { p % 256 }

  /**
   * The register-and-immediate layout `rdrd #### ####` of mov, addi and subi:
   * the masked register above the masked immediate. The fields do not
   * overlap, so this is the source's OR of the shifted fields (`PackRegImmIsOr`).
   */
  function PackRegImm(rd: int, imm: int): (p: nat)
    ensures p < 0x1000
    ensures HighNibble(p) == Nibble(rd) && ImmediateByte(p) == LowByte(imm)
  {
    DivUnique(Nibble(rd) * 256 + LowByte(imm), 256, Nibble(rd), LowByte(imm));
    Nibble(rd) * 256 + LowByte(imm)
  }

  /**
   * The three-register layout `r0r0 r1r1 r2r2` of addr, subr, load and store:
   * three masked registers side by side, the source's OR of the shifted
   * fields (`PackRegsIsOr`).
   */
  function PackRegs(r0: int, r1: int, r2: int): (p: nat)
    ensures p < 0x1000
    ensures HighNibble(p) == Nibble(r0) && MiddleNibble(p) == Nibble(r1) && LowNibble(p) == Nibble(r2)
  {
    RegsDecode(Nibble(r0), Nibble(r1), Nibble(r2));
    Nibble(r0) * 256 + Nibble(r1) * 16 + Nibble(r2)
  }

  /** `((rd & 0xF) << 8) | (imm & 0xFF)` is the register-and-immediate field. */
  lemma PackRegImmIsOr(rd: int, imm: int)
    ensures Or(ShiftLeft(Nibble(rd), 8), LowByte(imm)) == PackRegImm(rd, imm)
  {
    Pow2Values();
    OrDisjoint(Nibble(rd), LowByte(imm), 8);
  }

  /** `((r0 & 0xF) << 8) | ((r1 & 0xF) << 4) | (r2 & 0xF)` is the three-register field. */
  lemma PackRegsIsOr(r0: int, r1: int, r2: int)
    ensures Or(Or(ShiftLeft(Nibble(r0), 8), ShiftLeft(Nibble(r1), 4)), Nibble(r2)) == PackRegs(r0, r1, r2)
  {
    var n0, n1, n2 := Nibble(r0), Nibble(r1), Nibble(r2);
    Pow2Values();
    assert ShiftLeft(n0, 8) == n0 * 256 && ShiftLeft(n1, 4) == n1 * 16;
    OrDisjoint(n0, ShiftLeft(n1, 4), 8);
    var high := Or(ShiftLeft(n0, 8), ShiftLeft(n1, 4));
    assert high == ShiftLeft(16 * n0 + n1, 4) == n0 * 256 + n1 * 16;
    OrDisjoint(16 * n0 + n1, n2, 4);
    assert Or(high, n2) == n0 * 256 + n1 * 16 + n2;
  }

  /** The three nibbles of `n0 * 256 + n1 * 16 + n2` read back as `n0`, `n1`, `n2`. */
  lemma RegsDecode(n0: nat, n1: nat, n2: nat)
    requires n0 < 16 && n1 < 16 && n2 < 16
    ensures var p := n0 * 256 + n1 * 16 + n2;
      p < 0x1000 && HighNibble(p) == n0 && MiddleNibble(p) == n1 && LowNibble(p) == n2
  {
    var p := n0 * 256 + n1 * 16 + n2;
    DivUnique(p, 256, n0, n1 * 16 + n2);
    DivUnique(p, 16, n0 * 16 + n1, n2);
    DivUnique(n0 * 16 + n1, 16, n0, n1);
  }

  /** A 12-bit field is determined by its three nibbles, and by its high nibble and low byte. */
  lemma FieldFromParts(p: nat)
    requires p < 0x1000
    ensures p == HighNibble(p) * 256 + MiddleNibble(p) * 16 + LowNibble(p)
    ensures p == HighNibble(p) * 256 + ImmediateByte(p)
  {
    DivUnique(p / 256, 16, 0, p / 256);
    var q := p / 16;
    DivUnique(q / 16, 16, 0, q / 16);
    DivUnique(p, 256, q / 16, (q % 16) * 16 + p % 16);
  }

  predicate HasRegImmLayout(op: OpCode)
  {
    op == MOVIR || op == ADDI || op == SUBI
  }

  predicate HasRegsLayout(op: OpCode)
  {
    op == ADDRR || op == SUBRR || op == LOAD || op == STORE
  }

  /**
   * `encodeInstruction`: pick the opcode by mnemonic and pack the masked
   * operands. An unsupported mnemonic keeps the placeholder, so its label
   * is dropped. The address is always 0 here; `jnz` ignores its operand
   * slots and leaves the jump address for pass 2.
   */
  function Encode(line: ParsedLine): (r: Instruction)
    ensures r.opcode == OpCodeOf(line.opcode) && r.address == 0
    ensures r.opcode == UNKNOWN ==> r == Placeholder
    ensures r.opcode != UNKNOWN ==> r.labelName == line.labelName && r.packedArgs < 0x1000
    ensures r.targetLabel == if r.opcode == JNZI then line.arg0Label else ""
    ensures HasRegImmLayout(r.opcode) ==> r.packedArgs == PackRegImm(line.arg0Reg, line.arg1Imm)
    ensures HasRegsLayout(r.opcode) ==> r.packedArgs == PackRegs(line.arg0Reg, line.arg1Reg, line.arg2Reg)
    ensures r.opcode == JNZI || r.opcode == NOP || r.opcode == UNKNOWN ==> r.packedArgs == 0
  {
    var op := OpCodeOf(line.opcode);
    match op
    case ADDI | SUBI | MOVIR =>
      Instruction(line.labelName, op, PackRegImm(line.arg0Reg, line.arg1Imm), 0, "")
    case ADDRR | SUBRR | LOAD | STORE =>
      Instruction(line.labelName, op, PackRegs(line.arg0Reg, line.arg1Reg, line.arg2Reg), 0, "")
    case JNZI =>
      Instruction(line.labelName, JNZI, 0, 0, line.arg0Label)
    case NOP =>
      Instruction(line.labelName, NOP, 0, 0, "")
    case JZR | UNKNOWN =>
      Placeholder
  }

  /** The label a line binds in pass 1: its own for a supported mnemonic, none otherwise. */
  function DefinedLabel(line: ParsedLine): string
  {
    if IsSupported(line.opcode) then line.labelName else ""
  }

  /** The label of the encoded instruction is the one the line binds: an unsupported line loses its label. */
  lemma EncodedLabel(line: ParsedLine)
    ensures Encode(line).labelName == DefinedLabel(line)
  {
  }

  /** The opcode each supported mnemonic selects. */
  lemma MnemonicEntries()
    ensures OpCodeOf("addi") == ADDI && OpCodeOf("addr") == ADDRR && OpCodeOf("subi") == SUBI
    ensures OpCodeOf("subr") == SUBRR && OpCodeOf("jnz") == JNZI && OpCodeOf("mov") == MOVIR
    ensures OpCodeOf("nop") == NOP && OpCodeOf("load") == LOAD && OpCodeOf("store") == STORE
  {
  }

  /** `jnz` is the only mnemonic selecting JNZI, and `nop` the only one selecting NOP. */
  lemma SingleMnemonic(m: string)
    ensures OpCodeOf(m) == JNZI <==> m == "jnz"
    ensures OpCodeOf(m) == NOP <==> m == "nop"
  {
    MnemonicEntries();
    if m in Mnemonics && m != "jnz" && m != "nop" {
      assert m in {"addi", "addr", "subi", "subr", "mov", "load", "store"};
    }
  }

  /** The mnemonic `jz` is not encoded: it yields the placeholder, like any unknown word. */
  lemma JzIsNotEncoded(line: ParsedLine)
    requires line.opcode == "jz"
    ensures Encode(line) == Placeholder
  {
  }
}
