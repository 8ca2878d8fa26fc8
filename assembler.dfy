/**
 * The two-pass driver `parseInput` of src/mlpas.cpp.
 *
 * Pass 1 encodes each parsed line, gives it the byte address 2 * index and
 * binds the line's label to that address unless the label is already
 * bound (the first definition wins). Pass 2 ORs the low byte of the bound
 * address into every instruction whose jump target is in the table.
 *
 * The source keeps the jump table in a global map that survives between
 * calls; here it is a local of one run, starting empty. Messages written to
 * the error stream are collected as a sequence of diagnostics. The state of
 * each pass after its first k steps is given by a function of the whole
 * input and k.
 */
module Assembler {
  import opened Bits
  import opened Encoder

  /** What the source writes to its error stream while assembling. */
  datatype Diagnostic =
    | UnsupportedOpcode(mnemonic: string)
    | DuplicatedLabel(name: string, line: int)
    | UnknownJumpTarget(name: string, line: int)

  /** The message `encodeInstruction` writes for a line: one exactly when the mnemonic is unsupported. */
  function EncodeDiagnostics(line: ParsedLine): (d: seq<Diagnostic>)
    ensures d == [] <==> IsSupported(line.opcode)
    ensures d != [] ==> d == [UnsupportedOpcode(line.opcode)]
  {
    if IsSupported(line.opcode) then [] else [UnsupportedOpcode(line.opcode)]
  }

  /** The instruction pass 1 makes of line number `index` (from 0): encoded, at byte address 2 * index. */
  function Placed(line: ParsedLine, index: nat): (inst: Instruction)
    ensures inst.address == 2 * index
    ensures inst == Encode(line).(address := inst.address)
  {
    Encode(line).(address := 2 * index)
  }

  /**
   * The jump table pass 1 has built after the first k lines of `p`,
   * starting from an empty table: a label not yet bound is bound to the
   * byte address of its line.
   */
  function TableAfter(p: seq<ParsedLine>, k: nat): (table: map<string, int>)
    requires k <= |p|
    ensures forall l :: l in table ==> l != "" && 0 <= table[l] < 2 * k && table[l] % 2 == 0
    decreases k
  {
    if k == 0 then map[]
    else
      var front := TableAfter(p, k - 1);
      var l := DefinedLabel(p[k - 1]);
      if l == "" || l in front then front else front[l := 2 * (k - 1)]
  }

  /** The jump table pass 1 builds from the lines `p`. */
  function JumpTable(p: seq<ParsedLine>): (table: map<string, int>)
    ensures forall l :: l in table ==> l != "" && 0 <= table[l] < 2 * |p| && table[l] % 2 == 0
  {
    TableAfter(p, |p|)
  }

  /**
   * What pass 1 writes to the error stream for one line, given the table
   * built from the lines before it and the line's number: the encoder's
   * message, then a message when the line's label is already bound.
   */
  function LineDiagnostics(line: ParsedLine, table: map<string, int>, lineNum: int): seq<Diagnostic>
  {
    var l := DefinedLabel(line);
    EncodeDiagnostics(line) + (if l != "" && l in table then [DuplicatedLabel(l, lineNum)] else [])
  }

  /**
   * What pass 1 writes to the error stream for the first k lines of `p`,
   * numbering the lines from 1.
   */
  function Pass1Diagnostics(p: seq<ParsedLine>, k: nat): seq<Diagnostic>
    requires k <= |p|
    decreases k
  {
    if k == 0 then []
    else Pass1Diagnostics(p, k - 1) + LineDiagnostics(p[k - 1], TableAfter(p, k - 1), k)
  }

  /** Pass 2 on one instruction: OR in the low byte of the target's address when the table has it. */
  function Resolve(table: map<string, int>, inst: Instruction): (r: Instruction)
    ensures r.labelName == inst.labelName && r.opcode == inst.opcode
    ensures r.address == inst.address && r.targetLabel == inst.targetLabel
    ensures inst.targetLabel == "" || inst.targetLabel !in table ==> r == inst
    ensures inst.targetLabel != "" && inst.targetLabel in table ==>
      r.packedArgs == Or(inst.packedArgs, LowByte(table[inst.targetLabel]))
  {
    if inst.targetLabel != "" && inst.targetLabel in table then
      inst.(packedArgs := Or(inst.packedArgs, LowByte(table[inst.targetLabel])))
    else
      inst
  }

  /**
   * Pass 2 changes nothing above the low byte of the operand field, so a
   * 12-bit field stays 12-bit, and a zero field ends up holding exactly the
   * low byte of the target's address.
   */
  lemma ResolveTouchesLowByteOnly(table: map<string, int>, inst: Instruction)
    ensures Resolve(table, inst).packedArgs / 256 == inst.packedArgs / 256
    ensures inst.packedArgs < 0x1000 ==> Resolve(table, inst).packedArgs < 0x1000
    ensures inst.packedArgs == 0 && inst.targetLabel != "" && inst.targetLabel in table ==>
      Resolve(table, inst).packedArgs == LowByte(table[inst.targetLabel])
  {
    if inst.targetLabel != "" && inst.targetLabel in table {
      var b := LowByte(table[inst.targetLabel]);
      OrKeepsHighBits(inst.packedArgs, b, 8);
      if inst.packedArgs < 0x1000 {
        OrBelow(inst.packedArgs, b, 12);
      }
      OrZero(b);
    }
  }

  /**
   * What pass 2 writes to the error stream for the first k instructions:
   * one message per jump target missing from the table, each carrying the
   * line counter `lineNum` as it stands after pass 1 rather than the line
   * of the jump.
   */
  function Pass2Diagnostics(insts: seq<Instruction>, table: map<string, int>, lineNum: int, k: nat): (d: seq<Diagnostic>)
    requires k <= |insts|
    ensures |d| <= k
    ensures forall m :: m in d ==> m.UnknownJumpTarget? && m.line == lineNum && m.name !in table
    decreases k
  {
    if k == 0 then []
    else
      var t := insts[k - 1].targetLabel;
      Pass2Diagnostics(insts, table, lineNum, k - 1) +
      (if t != "" && t !in table then [UnknownJumpTarget(t, lineNum)] else [])
  }

  /** The instruction list pass 1 has made of the first k lines of `p`: line i encoded at address 2 * i. */
  function Pass1(p: seq<ParsedLine>, k: nat): (insts: seq<Instruction>)
    requires k <= |p|
    ensures |insts| == k
    decreases k
  {
    if k == 0 then [] else Pass1(p, k - 1) + [Placed(p[k - 1], k - 1)]
  }

  /** Pass 1 puts line i, encoded, at index i and address 2 * i. */
  lemma {:induction false} Pass1At(p: seq<ParsedLine>, k: nat, i: nat)
    requires i < k <= |p|
    ensures Pass1(p, k)[i] == Placed(p[i], i)
    decreases k
  {
    var front := Pass1(p, k - 1);
    assert Pass1(p, k) == front + [Placed(p[k - 1], k - 1)];
    if i < k - 1 {
      Pass1At(p, k - 1, i);
      assert Pass1(p, k)[i] == front[i];
    }
  }

  /** The instruction list `parseInput` returns for the lines `p`. */
  function Assemble(p: seq<ParsedLine>): (insts: seq<Instruction>)
    ensures |insts| == |p|
    ensures forall i :: 0 <= i < |p| ==> insts[i] == Resolve(JumpTable(p), Placed(p[i], i))
  {
    var table := JumpTable(p);
    seq(|p|, i requires 0 <= i < |p| => Resolve(table, Placed(p[i], i)))
  }

  /** Everything `parseInput` writes to the error stream for the lines `p`. */
  function Diagnostics(p: seq<ParsedLine>): (d: seq<Diagnostic>)
    ensures forall m :: m in d && m.UnknownJumpTarget? ==> m.line == |p| + 1 && m.name !in JumpTable(p)
    ensures forall m :: m in d && m.DuplicatedLabel? ==> 1 <= m.line <= |p|
  {
    Pass1DiagnosticKinds(p, |p|);
    Pass1Diagnostics(p, |p|) + Pass2Diagnostics(Pass1(p, |p|), JumpTable(p), |p| + 1, |p|)
  }

  /** Pass 1 writes no unknown-target message, and numbers each duplicate with a line it has handled. */
  lemma {:induction false} Pass1DiagnosticKinds(p: seq<ParsedLine>, k: nat)
    requires k <= |p|
    ensures forall m :: m in Pass1Diagnostics(p, k) ==> !m.UnknownJumpTarget? && (m.DuplicatedLabel? ==> 1 <= m.line <= k)
    decreases k
  {
    if k > 0 {
      Pass1DiagnosticKinds(p, k - 1);
      var front := Pass1Diagnostics(p, k - 1);
      var last := LineDiagnostics(p[k - 1], TableAfter(p, k - 1), k);
      assert Pass1Diagnostics(p, k) == front + last;
      forall m: Diagnostic | m in front + last
        ensures !m.UnknownJumpTarget? && (m.DuplicatedLabel? ==> 1 <= m.line <= k)
      {
        if m !in front {
          assert m in last;
        }
      }
    }
  }

  /** Every label bound by line i < k is in the table after k lines, at the address of that line or an earlier one. */
  lemma {:induction false} TableComplete(p: seq<ParsedLine>, k: nat, i: nat)
    requires i < k <= |p| && DefinedLabel(p[i]) != ""
    ensures DefinedLabel(p[i]) in TableAfter(p, k) && TableAfter(p, k)[DefinedLabel(p[i])] <= 2 * i
    decreases k
  {
    if i < k - 1 {
      TableComplete(p, k - 1, i);
    }
  }

  /**
   * First definition wins: a label in the table is bound to 2 * j, where line
   * j binds it and no earlier line does.
   */
  lemma {:induction false} TableFirstDefinition(p: seq<ParsedLine>, k: nat, l: string)
    requires k <= |p| && l in TableAfter(p, k)
    ensures var j := TableAfter(p, k)[l] / 2;
      TableAfter(p, k)[l] == 2 * j && j < k && DefinedLabel(p[j]) == l &&
      forall i :: 0 <= i < j ==> DefinedLabel(p[i]) != l
    decreases k
  {
    if l in TableAfter(p, k - 1) {
      TableFirstDefinition(p, k - 1, l);
    } else {
      forall i | 0 <= i < k - 1
        ensures DefinedLabel(p[i]) != l
      {
        if DefinedLabel(p[i]) == l {
          TableComplete(p, k - 1, i);
        }
      }
    }
  }

  /** Pass 1 never rebinds a label: lines handled later keep every binding already made. */
  lemma {:induction false} TableExtends(p: seq<ParsedLine>, k: nat, k': nat)
    requires k <= k' <= |p|
    ensures forall l :: l in TableAfter(p, k) ==> l in TableAfter(p, k') && TableAfter(p, k')[l] == TableAfter(p, k)[l]
    decreases k'
  {
    if k < k' {
      TableExtends(p, k, k' - 1);
    }
  }

  /**
   * Pass 1 reports line n as a duplicate definition of l exactly when line n
   * defines l and an earlier line has already bound it.
   */
  lemma {:induction false} DuplicateReported(p: seq<ParsedLine>, k: nat, l: string, n: int)
    requires k <= |p|
    ensures DuplicatedLabel(l, n) in Pass1Diagnostics(p, k) <==>
      1 <= n <= k && l != "" && DefinedLabel(p[n - 1]) == l && l in TableAfter(p, n - 1)
    decreases k
  {
    if k > 0 {
      var d := DuplicatedLabel(l, n);
      var front := Pass1Diagnostics(p, k - 1);
      var last := LineDiagnostics(p[k - 1], TableAfter(p, k - 1), k);
      assert Pass1Diagnostics(p, k) == front + last;
      assert d in front + last <==> d in front || d in last;
      DuplicateReported(p, k - 1, l, n);
      LineReportsDuplicate(p[k - 1], TableAfter(p, k - 1), k, l, n);
      if n == k {
        assert d !in front;
        assert p[n - 1] == p[k - 1] && TableAfter(p, n - 1) == TableAfter(p, k - 1);
      } else {
        assert d !in last;
      }
    }
  }

  /** The messages for one line hold a duplicate-label message exactly when that line rebinds a bound label. */
  lemma LineReportsDuplicate(line: ParsedLine, table: map<string, int>, lineNum: int, l: string, n: int)
    ensures DuplicatedLabel(l, n) in LineDiagnostics(line, table, lineNum) <==>
      n == lineNum && l != "" && DefinedLabel(line) == l && l in table
  {
    assert DuplicatedLabel(l, n) !in EncodeDiagnostics(line);
  }

  /** Pass 1 reports a mnemonic as unsupported exactly when it is and one of the lines uses it. */
  lemma {:induction false} UnsupportedReported(p: seq<ParsedLine>, k: nat, m: string)
    requires k <= |p|
    ensures UnsupportedOpcode(m) in Pass1Diagnostics(p, k) <==>
      !IsSupported(m) && exists i :: 0 <= i < k && p[i].opcode == m
    decreases k
  {
    if k > 0 {
      var d := UnsupportedOpcode(m);
      var front := Pass1Diagnostics(p, k - 1);
      var last := LineDiagnostics(p[k - 1], TableAfter(p, k - 1), k);
      assert Pass1Diagnostics(p, k) == front + last;
      assert d in front + last <==> d in front || d in last;
      assert d in last <==> !IsSupported(m) && p[k - 1].opcode == m;
      UnsupportedReported(p, k - 1, m);
      if d in front {
        var i :| 0 <= i < k - 1 && p[i].opcode == m;
        assert 0 <= i < k && p[i].opcode == m;
      } else if d in last {
        assert 0 <= k - 1 < k && p[k - 1].opcode == m;
      }
      if !IsSupported(m) && exists i :: 0 <= i < k && p[i].opcode == m {
        var i :| 0 <= i < k && p[i].opcode == m;
        if i < k - 1 {
          assert d in front;
        } else {
          assert d in last;
        }
      }
    }
  }

  /**
   * Pass 2 reports l exactly when some instruction jumps to l and the table
   * does not have it, always with the same line counter.
   */
  lemma {:induction false} UnresolvedReported(insts: seq<Instruction>, table: map<string, int>, lineNum: int, k: nat, l: string, n: int)
    requires k <= |insts|
    ensures UnknownJumpTarget(l, n) in Pass2Diagnostics(insts, table, lineNum, k) <==>
      n == lineNum && l != "" && l !in table && exists i :: 0 <= i < k && insts[i].targetLabel == l
    decreases k
  {
    if k > 0 {
      var d := UnknownJumpTarget(l, n);
      var t := insts[k - 1].targetLabel;
      var front := Pass2Diagnostics(insts, table, lineNum, k - 1);
      var last := if t != "" && t !in table then [UnknownJumpTarget(t, lineNum)] else [];
      assert Pass2Diagnostics(insts, table, lineNum, k) == front + last;
      assert d in front + last <==> d in front || d in last;
      UnresolvedReported(insts, table, lineNum, k - 1, l, n);
    }
  }

  /**
   * Each line gives exactly one instruction at address 2 * index, whether or
   * not its mnemonic is known; its operand field fits in 12 bits and a
   * known mnemonic's opcode in 4 bits.
   */
  lemma AssembledFieldsFit(p: seq<ParsedLine>, i: nat)
    requires i < |p|
    ensures |Assemble(p)| == |p| && Assemble(p)[i].address == 2 * i
    ensures Assemble(p)[i].packedArgs < 0x1000
    ensures IsSupported(p[i].opcode) ==> Assemble(p)[i].opcode.Value() < 16
  {
    ResolveTouchesLowByteOnly(JumpTable(p), Placed(p[i], i));
  }

  /**
   * A line with an unknown mnemonic still takes its address slot, as the
   * placeholder with no label (its mnemonic is reported: `UnsupportedReported`).
   */
  lemma UnknownLineKeepsSlot(p: seq<ParsedLine>, i: nat)
    requires i < |p| && !IsSupported(p[i].opcode)
    ensures Assemble(p)[i] == Placeholder.(address := 2 * i)
  {
  }

  /**
   * A `jnz` line becomes a JNZI instruction whose operand field is the low
   * byte of its target's address when the table has the target, and zero
   * when it does not. Every other line is left as pass 1 made it.
   */
  lemma AssembledJump(p: seq<ParsedLine>, i: nat)
    requires i < |p|
    ensures p[i].opcode != "jnz" ==> Assemble(p)[i] == Placed(p[i], i)
    ensures p[i].opcode == "jnz" ==>
      var inst := Assemble(p)[i];
      var l := p[i].arg0Label;
      inst.opcode == JNZI && inst.address == 2 * i && inst.targetLabel == l &&
      inst.packedArgs == if l != "" && l in JumpTable(p) then LowByte(JumpTable(p)[l]) else 0
  {
    SingleMnemonic(p[i].opcode);
    ResolveTouchesLowByteOnly(JumpTable(p), Placed(p[i], i));
  }

  /**
   * A jump resolves to the first line that defines its target, whether that
   * line comes before the jump or after it.
   */
  lemma JumpResolvesToFirstDefinition(p: seq<ParsedLine>, i: nat, j: nat)
    requires i < |p| && p[i].opcode == "jnz"
    requires j < |p| && p[i].arg0Label != "" && DefinedLabel(p[j]) == p[i].arg0Label
    requires forall k :: 0 <= k < j ==> DefinedLabel(p[k]) != p[i].arg0Label
    ensures Assemble(p)[i].packedArgs == LowByte(2 * j)
  {
    var l := p[i].arg0Label;
    TableComplete(p, |p|, j);
    TableFirstDefinition(p, |p|, l);
    assert JumpTable(p)[l] == 2 * j;
    AssembledJump(p, i);
  }

  /**
   * `parseInput`: pass 1 over the lines (encode, number, bind labels), then
   * pass 2 over the instruction list.
   */
  method ParseInput(program: seq<ParsedLine>) returns (insts: seq<Instruction>, diags: seq<Diagnostic>)
    ensures |insts| == |program|
    ensures forall i :: 0 <= i < |program| ==>
      insts[i].address == 2 * i && insts[i].opcode == OpCodeOf(program[i].opcode)
    ensures insts == Assemble(program)
    ensures diags == Diagnostics(program)
  {
    var placed, jumpTable, lineNum, unresolved;
    placed, jumpTable, lineNum, diags := PlaceLines(program);
    insts, unresolved := ResolveTargets(placed, jumpTable, lineNum);
    diags := diags + unresolved;
    assert insts == Assemble(program) by {
      forall i | 0 <= i < |program|
        ensures insts[i] == Assemble(program)[i]
      {
        Pass1At(program, |program|, i);
      }
    }
  }

  /**
   * Pass 1 of `parseInput`: encode each line, give it the next even byte
   * address and bind its label unless the label is already bound.
   */
  method PlaceLines(program: seq<ParsedLine>)
    returns (insts: seq<Instruction>, jumpTable: map<string, int>, lineNum: int, diags: seq<Diagnostic>)
    ensures insts == Pass1(program, |program|) && jumpTable == JumpTable(program)
    ensures lineNum == |program| + 1 && diags == Pass1Diagnostics(program, |program|)
  {
    jumpTable := map[];
    insts, diags := [], [];
    lineNum := 1;
    var byteCounter := 0;
    for k := 0 to |program|
      invariant lineNum == k + 1 && byteCounter == 2 * k
      invariant jumpTable == TableAfter(program, k)
      invariant insts == Pass1(program, k)
      invariant diags == Pass1Diagnostics(program, k)
    {
      var inst, messages;
      inst, jumpTable, messages := PlaceLine(program[k], lineNum, byteCounter, jumpTable);
      diags := diags + messages;
      insts := insts + [inst];
      lineNum := lineNum + 1;
      byteCounter := byteCounter + 2;
    }
  }

  /**
   * The body of the pass-1 loop for one line: encode it, set its address,
   * and bind its label or report the label as a duplicate.
   */
  method PlaceLine(line: ParsedLine, lineNum: int, byteCounter: int, jumpTable: map<string, int>)
    returns (inst: Instruction, table: map<string, int>, messages: seq<Diagnostic>)
    ensures inst == Encode(line).(address := byteCounter)
    ensures var l := DefinedLabel(line);
      table == if l == "" || l in jumpTable then jumpTable else jumpTable[l := byteCounter]
    ensures messages == LineDiagnostics(line, jumpTable, lineNum)
  {
    EncodedLabel(line);
    inst := Encode(line);
    messages := EncodeDiagnostics(line);
    inst := inst.(address := byteCounter);
    table := jumpTable;
    if inst.labelName != "" {
      if inst.labelName in table {
        messages := messages + [DuplicatedLabel(inst.labelName, lineNum)];
      } else {
        table := table[inst.labelName := inst.address];
      }
    }
  }

  /** Pass 2 of `parseInput`: patch every instruction whose target is in the table, in place. */
  method ResolveTargets(placed: seq<Instruction>, jumpTable: map<string, int>, lineNum: int)
    returns (insts: seq<Instruction>, diags: seq<Diagnostic>)
    ensures |insts| == |placed|
    ensures forall j :: 0 <= j < |placed| ==> insts[j] == Resolve(jumpTable, placed[j])
    ensures diags == Pass2Diagnostics(placed, jumpTable, lineNum, |placed|)
  {
    insts, diags := placed, [];
    for i := 0 to |insts|
      invariant |insts| == |placed|
      invariant forall j :: 0 <= j < |insts| ==>
        insts[j] == if j < i then Resolve(jumpTable, placed[j]) else placed[j]
      invariant diags == Pass2Diagnostics(placed, jumpTable, lineNum, i)
    {
      var inst := insts[i];
      if inst.targetLabel != "" {
        if inst.targetLabel !in jumpTable {
          diags := diags + [UnknownJumpTarget(inst.targetLabel, lineNum)];
        } else {
          inst := inst.(packedArgs := Or(inst.packedArgs, LowByte(jumpTable[inst.targetLabel])));
          insts := insts[i := inst];
        }
      }
    }
  }
}
