# mlpas core, modelled in Dafny

mlpas is a two-pass assembler for a small 16-bit instruction set. This
project models its core in `src/mlpas.cpp` and proves properties of the
model. The core has four parts:

- `encodeInstruction` turns one parsed line into an `Instruction` record.
  It picks the opcode by mnemonic and packs the masked register nibbles and
  the immediate byte into a 12-bit operand field.
- `parseInput` runs the two passes.
  - Pass 1 gives line i the byte address 2i. It binds each label to the
    first address that defines it, in the jump table.
  - Pass 2 ORs the low byte of each jump target's address into the
    operand field of the jump.
- The output loops of `write_program_binary` and `write_program_hex` turn
  each instruction into the word `opcode << 12 | operands`. They then swap
  the two bytes of the word in the output buffer.
- The string helpers `rtrim`, `ltrim` and `removeComment`.

The files:

- `wrappers.dfy` holds `Option`.
- `bits.dfy` (module `Bits`) holds masks, shifts and bitwise OR on
  non-negative integers, with the lemmas that turn a non-overlapping OR
  into addition.
- `strings.dfy` (module `Strings`) holds the string helpers.
- `encoder.dfy` (module `Encoder`) holds `OpCode`, `ParsedLine`,
  `Instruction` and the encoder.
- `assembler.dfy` (module `Assembler`) holds `parseInput`. The passes are
  methods with loops. Each one is proved equal to a function of the input
  lines, and the lemmas are stated about those functions.
- `machine_code.dfy` (module `MachineCode`) holds the word, the byte swap,
  and the loop that fills the machine-code buffer (an `array`).

Where the code differs from what its own layout comment or a reader
would expect, the model follows the code:

- The layout table lists `jz` (opcode 9) and `jmp`, but the if-chain has
  no branch for either. A `jz` line therefore becomes the placeholder
  record with opcode `UNKNOWN`, and it loses its label.
- `UNKNOWN` is 9999, and 9999 masked with 0xF is 0xF. So a line with an
  unknown mnemonic is emitted as 0xF000, the same word as `nop`.
- Pass 2 reports an unknown jump target with the line counter as it
  stands after pass 1. That is the number of lines plus one for every
  such message, not the line of the jump.
- `jnz` ignores its register and immediate slots. Its operand field holds
  only what pass 2 ORs in.
- Operands are masked and never range-checked. For example, register 17
  encodes as register 1.
- The mnemonics tested by the if-chain are all distinct. The chain is
  therefore modelled as a lookup in the table `Encoder.Mnemonics`.

## Model

| member | source | states |
|---|---|---|
| Encoder.OpCode.Value | src/mlpas.cpp:12-25 | every opcode except `UNKNOWN` fits in the 4-bit opcode field |
| Encoder.OpCodeOf | src/mlpas.cpp:83-156 | the selected opcode is `UNKNOWN` exactly when no branch of the if-chain matches; no mnemonic selects `JZR`. The nine branches are the constant table `Mnemonics` (mnemonic to opcode) |
| Encoder.MnemonicEntries | src/mlpas.cpp:83-153 | the opcode each of the nine mnemonics selects |
| Encoder.SingleMnemonic | src/mlpas.cpp:117-137 | only `jnz` selects `JNZI` and only `nop` selects `NOP` |
| Encoder.PackRegImm | src/mlpas.cpp:88-89 | the register-and-immediate field is below 4096; bits 11..8 read back the masked register and bits 7..0 the masked immediate |
| Encoder.PackRegs | src/mlpas.cpp:96-98 | the three-register field is below 4096 and its three nibbles read back the three masked registers |
| Encoder.PackRegImmIsOr | src/mlpas.cpp:88-89 | the source's shift-and-OR expression equals the register-and-immediate field |
| Encoder.PackRegsIsOr | src/mlpas.cpp:96-98 | the source's shift-and-OR expression equals the three-register field |
| Encoder.FieldFromParts | src/mlpas.cpp:68-82 | a 12-bit field is determined by its three nibbles, and by its high nibble and low byte |
| Encoder.Encode | src/mlpas.cpp:64-158 | starting from the constant `Placeholder` (the default record `{"", UNKNOWN, 0, 0, ""}`): the opcode is the one the mnemonic selects and the address is 0; an unknown mnemonic gives the placeholder record; a known one keeps the label and has a field below 4096 that holds the operands in the layout of its opcode; only `jnz` has a target label, and `jnz` and `nop` have a zero field |
| Encoder.EncodedLabel | src/mlpas.cpp:83-157 | the encoded label is the line's label for a known mnemonic and empty otherwise |
| Encoder.DefinedLabel | src/mlpas.cpp:169-169 | definition: the label pass 1 tries to bind for a line, its own for a known mnemonic and none otherwise; `EncodedLabel` proves it is the label of the encoded record |
| Encoder.JzIsNotEncoded | src/mlpas.cpp:79-156 | a `jz` line gives the placeholder record, like an unknown mnemonic |
| Assembler.EncodeDiagnostics | src/mlpas.cpp:154-156 | the encoder writes one "not supported" message exactly when the mnemonic is unknown |
| Assembler.Placed | src/mlpas.cpp:167-168 | pass 1 gives line i the encoded record at byte address 2i |
| Assembler.TableAfter | src/mlpas.cpp:169-176 | every bound label is non-empty, and its address is even and belongs to a line already handled |
| Assembler.JumpTable | src/mlpas.cpp:62-62 | the final jump table of one run (the table after every line): every bound label is non-empty and bound to an even address below twice the number of lines; `TableFirstDefinition` and `TableComplete` say which address |
| Assembler.Pass1 | src/mlpas.cpp:166-181 | pass 1 makes one instruction per line handled |
| Assembler.Pass1At | src/mlpas.cpp:166-181 | the instruction at index i is line i, encoded, at address 2i |
| Assembler.LineDiagnostics | src/mlpas.cpp:154-172 | definition: the messages for one line in pass 1, the encoder's message then the duplicate-label message; characterised by `LineReportsDuplicate` and `EncodeDiagnostics` |
| Assembler.Pass1Diagnostics | src/mlpas.cpp:164-182 | definition: the messages of pass 1 in the order written; characterised by `DuplicateReported`, `UnsupportedReported` and `Pass1DiagnosticKinds` |
| Assembler.Pass1DiagnosticKinds | src/mlpas.cpp:164-182 | pass 1 writes no unknown-target message, and every duplicate message carries the number of a line already handled |
| Assembler.TableComplete | src/mlpas.cpp:169-176 | a label bound by an earlier line is in the table, at the address of that line or an earlier one |
| Assembler.TableFirstDefinition | src/mlpas.cpp:169-176 | the first definition wins: a label is bound to 2j, where line j binds it and no earlier line does |
| Assembler.TableExtends | src/mlpas.cpp:170-175 | later lines never change or remove a binding |
| Assembler.LineReportsDuplicate | src/mlpas.cpp:169-172 | one line's messages report a duplicate exactly when its label is already bound |
| Assembler.DuplicateReported | src/mlpas.cpp:169-172 | pass 1 reports line n as a duplicate of l exactly when line n binds l and an earlier line already bound it |
| Assembler.UnsupportedReported | src/mlpas.cpp:154-156 | a mnemonic is reported as unsupported exactly when it is unknown and some line uses it |
| Assembler.Resolve | src/mlpas.cpp:185-193 | pass 2 keeps the label, opcode, address and target; it ORs in the low byte of the target's address when the table has the target, and changes nothing otherwise |
| Assembler.ResolveTouchesLowByteOnly | src/mlpas.cpp:191-191 | the OR leaves every bit above the low byte as it was; a 12-bit field stays 12-bit; a zero field becomes the low byte of the address |
| Assembler.UnresolvedReported | src/mlpas.cpp:184-189 | pass 2 reports l exactly when some instruction jumps to l and the table does not have it, always with the same line counter |
| Assembler.Pass2Diagnostics | src/mlpas.cpp:184-189 | at most one message per instruction, each an unknown-target message for a label not in the table, and each with the same line counter `lineNum`, not the line of the jump; `UnresolvedReported` says exactly which |
| Assembler.Diagnostics | src/mlpas.cpp:160-196 | everything a run writes, pass 1 then pass 2: every unknown-target message carries the number of lines plus one and names a label the final table lacks, and every duplicate message a line of the program |
| Assembler.Assemble | src/mlpas.cpp:160-196 | one instruction per line, in order: line i placed by pass 1 and then resolved by pass 2 |
| Assembler.AssembledFieldsFit | src/mlpas.cpp:164-194 | instruction i has address 2i and a field below 4096; a known mnemonic's opcode fits in 4 bits |
| Assembler.UnknownLineKeepsSlot | src/mlpas.cpp:166-181 | a line with an unknown mnemonic still takes its slot, as the label-less placeholder at address 2i |
| Assembler.AssembledJump | src/mlpas.cpp:184-194 | a `jnz` line ends with the low byte of its target's address, or zero when the target is unbound; every other line is left as pass 1 made it |
| Assembler.JumpResolvesToFirstDefinition | src/mlpas.cpp:169-191 | a jump resolves to the first line that defines its target, whether that line is before or after the jump |
| Assembler.ParseInput | src/mlpas.cpp:160-196 | the method returns `Assemble` of its input, with one instruction per line at address 2i, and writes exactly the messages of both passes |
| Assembler.PlaceLines | src/mlpas.cpp:164-182 | the pass-1 loop builds the instruction list, the jump table and the messages that pass 1 specifies, and ends with the line counter at the number of lines plus one |
| Assembler.PlaceLine | src/mlpas.cpp:167-176 | one iteration encodes the line at the byte counter; it binds a label not yet bound and reports one that is |
| Assembler.ResolveTargets | src/mlpas.cpp:184-194 | the pass-2 loop resolves every instruction in place and reports every unknown target |
| MachineCode.Word | src/mlpas.cpp:209-209 | the word fits 16 bits; its top nibble is the opcode's low nibble and its low twelve bits are the field's |
| MachineCode.WordIsOr | src/mlpas.cpp:224-224 | the source's mask, shift and OR expression equals the word |
| MachineCode.EncodedWordDecodes | src/mlpas.cpp:209-209 | for a known mnemonic, the word decodes to its opcode and its whole operand field |
| MachineCode.WordOfField | src/mlpas.cpp:209-209 | a known opcode and a 12-bit field go into the word unmasked |
| MachineCode.UnknownSerialisesAsNop | src/mlpas.cpp:24-24 | an unknown mnemonic, like `nop`, is emitted as 0xF000 |
| MachineCode.PackMovExample | src/mlpas.cpp:129-130 | the field of `mov r1, #5` is 0x105 |
| MachineCode.PackAddrExample | src/mlpas.cpp:96-98 | the field of `addr r1, r2, r3` is 0x123 |
| MachineCode.ExampleMov | src/mlpas.cpp:125-131 | `mov r1, #5` is the word 0x0105, whatever its label |
| MachineCode.ExampleAddr | src/mlpas.cpp:91-99 | `addr r1, r2, r3` is the word 0x4123, whatever its label |
| MachineCode.HostBytes | src/mlpas.cpp:206-206 | a stored word sits in memory low byte first |
| MachineCode.SwapPair | src/mlpas.cpp:211-211 | the swap exchanges the two bytes |
| MachineCode.SwapTwice | src/mlpas.cpp:226-226 | swapping twice gives back the original bytes |
| MachineCode.EmittedBytes | src/mlpas.cpp:209-211 | after the swap the buffer holds the word high byte first |
| MachineCode.EmittedRoundTrip | src/mlpas.cpp:209-211 | reading the emitted bytes back gives the word, and every byte pair is emitted by the word it spells |
| MachineCode.ProgramBytes | src/mlpas.cpp:205-213 | the buffer after the loop: two bytes per instruction, the emitted bytes of each instruction in order; `ProgramBytesAt` locates each instruction's bytes |
| MachineCode.ProgramBytesAt | src/mlpas.cpp:205-213 | the buffer is twice as long as the program; instruction k occupies bytes 2k (high) and 2k + 1 (low) |
| MachineCode.FillMachineCode | src/mlpas.cpp:220-228 | the buffer is freshly allocated, one `uint16_t` per instruction; the loop fills it with the emitted bytes of every instruction, in order |
| Strings.FindFirstOf | src/mlpas.cpp:54-54 | the first position of a character of the set, or none when no character of the string is in the set |
| Strings.FindFirstNotOf | src/mlpas.cpp:48-48 | the first position of a character outside the set, or none |
| Strings.FindLastNotOf | src/mlpas.cpp:41-41 | the last position of a character outside the set, or none |
| Strings.RTrim | src/mlpas.cpp:39-43 | the result is a prefix of the input; everything cut off is in the set, and the result does not end with a character of the set |
| Strings.LTrim | src/mlpas.cpp:46-50 | the result is a suffix of the input; everything cut off is in the set, and the result does not start with a character of the set |
| Strings.RemoveComment | src/mlpas.cpp:52-60 | the result is the prefix before the first `;`, or the whole line when it has none |
| Strings.TrimWhitespace | src/mlpas.cpp:36-50 | with the default set `ws` (the constant `Whitespace`), trimming on both sides leaves a slice of the line that neither starts nor ends with whitespace, with only whitespace cut off around it |
| Strings.RTrimUnique | src/mlpas.cpp:39-43 | `rtrim` removes exactly the trailing run: a prefix with its properties is its result |
| Strings.LTrimUnique | src/mlpas.cpp:46-50 | `ltrim` removes exactly the leading run: a suffix with its properties is its result |
| Strings.RTrimIdempotent | src/mlpas.cpp:39-43 | trimming again from the right changes nothing |
| Strings.LTrimIdempotent | src/mlpas.cpp:46-50 | trimming again from the left changes nothing |
| Strings.RemoveCommentIdempotent | src/mlpas.cpp:52-60 | a line without `;` is kept whole, and removing the comment again changes nothing |

## Left out

- `main`, the command-line handling and the parser driver
  (`src/parser_driver.h`, `src/parser_driver.cpp`) are not part of this
  model. `ParsedLine` is declared with the fields the encoder reads,
  because the grammar that defines it is not part of this model either.
- File and stream I/O are left out: opening and writing the output file,
  the hex and `std::bitset` printing of `write_program_hex` and
  `write_mem_hex`, and the text of the error messages. The messages are
  modelled as a sequence of `Diagnostic` values in the order they are
  written.
- The global `jump_table` keeps its bindings across calls of `parseInput`.
  The model starts each run with an empty table.
- Host byte order: the source swaps bytes through a byte pointer over
  `uint16_t`. The model fixes a little-endian host.
- Machine integers: `lineNum`, `byte_counter` and the addresses are
  unbounded integers, so 32-bit overflow of a program with more than 2^30
  lines is not modelled. `packed_args` never exceeds 4095 in the model, so
  its `unsigned int` width is never reached.
- Strings.RTrim, Strings.LTrim, Strings.RemoveComment: the source erases
  in place and returns a reference to its argument. The model returns the
  new string value, so aliasing of the argument is not captured.
- Assembler.ResolveTargets: the source patches the instructions through
  references into the vector. The model replaces element i of a sequence,
  which has the same effect on the returned list.
