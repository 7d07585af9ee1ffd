# NAME: MIPS assemblers and emulator core, in Dafny

NAME is a MIPS teaching environment written in Rust. This project models
three parts of it and proves properties of each.

- **The syntax-tree-driven assembler** (`name-as/src/nma.rs`). It covers:
  - field masks and base-prefixed number parsing;
  - the R-, I- and J-type instruction tables;
  - register names;
  - the encoding of one instruction of each type;
  - the byte order of the output file;
  - the `.eqv` preprocessor;
  - the two passes over the parsed program. Pass 1 assigns label addresses. Pass 2 encodes each instruction at its address, writes the words and records line information.
- **The earlier token-driven assembler** (`src/nma.rs`). It covers:
  - the tokenizer and masks;
  - its reduced R and I tables;
  - big-endian word output;
  - the state machine that collects each mnemonic's operands and emits the word once they are all in.
- **The emulator core** (`src/mips.rs`). It covers:
  - the machine state: registers, program counter and memory regions;
  - the region lookup and byte, half-word and word reads and writes;
  - instruction decoding;
  - the R- and I-type dispatchers for the implemented instructions;
  - `step_one`.

Modules, one per file:

| Module | File | Contents |
|---|---|---|
| `Outcome` | `outcome.dfy` | `Option`, and a `Result` with an `Err` case for returned errors and a `Panic` case for Rust panics |
| `Text` | `text.dfy` | Rust's `trim`, `find`, `lines`, `split` and `split_whitespace`, `join` |
| `RustNum` | `rust_num.dfy` | `from_str_radix` and digit rendering |
| `Word` | `word.dfy` | instruction fields and the byte orders of a word |
| `Registers` | `registers.dfy` | `reg_number` and `assemble_reg`, which both assemblers share |
| `NmaFields` | `nma_fields.dfy` | masks and number parsing of the syntax-tree-driven assembler |
| `NmaCatalog` | `nma_catalog.dfy` | its instruction tables |
| `NmaEncode` | `nma_encode.dfy` | its instruction encoding |
| `NmaPreprocess` | `nma_preprocess.dfy` | its preprocessor |
| `NmaAssemble` | `nma_assemble.dfy` | its two passes |
| `TokenAsm` | `token_asm.dfy` | the token-driven assembler |
| `Emulator` | `mips.dfy` | the emulator |

How the Rust code is modelled:

- `u8`, `u16` and `u32` are bit-vectors and wrap as in a release build.
- A Rust `panic!`, `unwrap` on `None`, or an out-of-bounds index is the `Panic` outcome.
- Emulator addresses are integers in `[0, 2^32)`. Their arithmetic wraps explicitly.
- The loops of the source are methods, each proved equal to a functional specification:
  - `preprocess`
  - pass 1 and pass 2
  - the token-driven assembler's loop
  - `map_memory`
- The emulator is a class whose methods update its register array, program counter and memory list.

## Model

| member | source | states |
|---|---|---|
| NmaFields.MaskU8 | name-as/src/nma.rs:11-18 | succeeds exactly when `n` fits in `x` bits and then returns `n` unchanged; otherwise "Masking error" |
| NmaFields.MaskU32 | name-as/src/nma.rs:20-27 | succeeds exactly when `n >> x == 0` and then returns `n`; otherwise "Masking error" |
| NmaFields.MaskBits32 | name-as/src/nma.rs:20-27 | the source's test `n & ((1 << x) - 1) == n` holds exactly when no bit at or above `x` is set |
| NmaFields.MaskIdempotent | name-as/src/nma.rs:11-27 | masking the result of a successful mask again gives the same result |
| NmaFields.ParsedOr | name-as/src/nma.rs:29-45 | a parsed value becomes `Ok` of that `u32`; a parse failure becomes the given error message |
| NmaFields.BaseParse | name-as/src/nma.rs:29-45 | never panics; reads hexadecimal after `0x`, binary after `0b`, octal after a leading `0` with more characters, decimal otherwise |
| NmaFields.BaseParseRoundTrip | name-as/src/nma.rs:29-45 | every `u32` written in any of the four notations parses back to itself |
| NmaFields.PrefixedRoundTrip | name-as/src/nma.rs:30-35 | a `u32` written after `0x` in hexadecimal or after `0b` in binary parses back to itself |
| NmaFields.OctalRoundTrip | name-as/src/nma.rs:36-38 | a `u32` written in octal after a `0` parses back to itself |
| NmaFields.DecimalRoundTrip | name-as/src/nma.rs:39-44 | a `u32` written in decimal parses back to itself |
| NmaFields.BaseParseErrors | name-as/src/nma.rs:29-45 | a bare `0x`, the octal literal `09` and a negative literal give the matching error message |
| RustNum.FromStrRadix | name-as/src/nma.rs:29-45 | a parsed value is within the type's maximum and comes from a non-empty digit string |
| RustNum.RenderRoundTrip | name-as/src/nma.rs:29-45 | rendering a number in a radix and parsing it back gives the number |
| RustNum.RenderValue | name-as/src/nma.rs:29-45 | the digits rendered for `n` have value `n` |
| RustNum.RenderHead | name-as/src/nma.rs:36 | a rendering carries no sign, and starts with `0` only for zero |
| NmaCatalog.ROperation | name-as/src/nma.rs:92-122 | found exactly for the R-type mnemonics; shamt is 0 and funct fits in 6 bits; `sll`/`srl` and only they take `rd, rt, shamt`; otherwise the table's error message |
| NmaCatalog.IOperation | name-as/src/nma.rs:124-185 | found exactly for the I-type mnemonics; the opcode is 6-bit, non-zero and not a jump opcode; the operand form per mnemonic (branches, `lui`, `ori`); otherwise the table's error message |
| NmaCatalog.JOperation | name-as/src/nma.rs:187-193 | found exactly for `j` and `jal`, with opcode 2 or 3; otherwise the table's error message |
| NmaCatalog.TablesDisjoint | name-as/src/nma.rs:623-669 | no mnemonic is in two tables, so the order R, I, J in which pass 2 tries them never matters |
| NmaCatalog.EncodingsDistinct | name-as/src/nma.rs:92-193 | within a table, two mnemonics with the same funct or opcode are the same mnemonic |
| Registers.RegNumber | name-as/src/nma.rs:221-239 | succeeds exactly on a three-byte token whose third character is a decimal digit, returning that digit |
| Registers.AssembleReg | name-as/src/nma.rs:242-278 | every register number returned is at most 31; panics exactly when slicing off the first character would panic (an empty or non-ASCII-led token); a token that resolves is one of the six aliases or exactly three characters with a decimal digit third |
| Registers.DollarNumberRefused | name-as/src/nma.rs:266-268 | a `$` followed only by decimal digits never resolves: a length other than three fails `reg_number`, and the numeric branch parses the whole token, `$` included, falling back to the out-of-bounds 99 |
| Registers.NumericTokens | name-as/src/nma.rs:221-278 | `$0` and `5` are too short, `$10` is out of bounds, and the three-byte literal `012` resolves to 12 |
| Registers.NumberedName | name-as/src/nma.rs:252-275 | `$vN`, `$aN`, `$sN` add 2, 4, 16 to the digit in `u8` arithmetic; `$t0`-`$t7` add 8; `$t8`, `$t9` add 16 |
| Registers.NamedAliases | name-as/src/nma.rs:245-250 | `$zero`, `$at`, `$gp`, `$sp`, `$fp`, `$ra` are registers 0, 1, 28, 29, 30, 31 |
| Registers.O32NamesResolve | src/nma.rs:160-192 | every o32 register name resolves to its own index, except `$k0` and `$k1`, which are refused |
| Registers.O32Entry | name-as/src/nma.rs:242-278 | a numbered o32 name resolves to its table index |
| NmaEncode.EnforceLength | name-as/src/nma.rs:281-287 | succeeds exactly when the operand count is the demanded one; otherwise "Failed length enforcement" |
| NmaEncode.ParseShamt | name-as/src/nma.rs:309-312 | succeeds exactly when the operand parses, keeping its low byte |
| NmaEncode.ParseImm | name-as/src/nma.rs:373-376 | succeeds exactly when the operand parses, keeping its low half-word |
| NmaEncode.AssembleR | name-as/src/nma.rs:290-355 | for each form, succeeds exactly when the operand count is 3, the registers resolve and the shift amount parses and is below 32; the word's rd, rs, rt and shamt fields are those operands; opcode 0 and the table's funct |
| NmaEncode.MaskedR | name-as/src/nma.rs:317-354 | succeeds exactly when shamt fits five bits and funct six; the word has opcode 0 and exactly the given rd, rs, rt, shamt and funct fields |
| NmaEncode.WithImpliedOffset | name-as/src/nma.rs:379-387 | a two-operand load or store gets the offset `0` inserted |
| NmaEncode.RtImmOperands | name-as/src/nma.rs:369-377 | `lui` operands succeed exactly on a register and a literal, with rs 0 |
| NmaEncode.RtImmRsOperands | name-as/src/nma.rs:378-395 | load and store operands give `rt`, the offset and the base register `rs` |
| NmaEncode.RtRsImmOperands | name-as/src/nma.rs:406-414 | immediate-arithmetic operands give `rt`, `rs` and the immediate |
| NmaEncode.BranchOperands | name-as/src/nma.rs:396-405 | the immediate is the low half of label address minus instruction address; an undeclared label is "Undeclared label" |
| NmaEncode.AssembleI | name-as/src/nma.rs:358-451 | succeeds exactly when the operands of the form do, with the table's opcode and those rs, rt and immediate fields |
| NmaEncode.MaskedI | name-as/src/nma.rs:419-450 | succeeds exactly when the opcode fits six bits; the word carries that opcode and exactly the given rs, rt and immediate |
| NmaEncode.AssembleJ | name-as/src/nma.rs:454-495 | succeeds exactly on one operand naming a label below 2^28, packing the opcode and the address's word index; a missing label panics |
| NmaEncode.JWord | name-as/src/nma.rs:470-485 | the word's opcode and 26-bit target are the opcode and the address divided by four |
| NmaEncode.ConvertEndianness | name-as/src/nma.rs:197-202 | the swapped word's big-endian bytes are the original word's little-endian bytes |
| NmaEncode.ConvertEndiannessInvolution | name-as/src/nma.rs:197-202 | swapping twice restores the word |
| NmaEncode.WriteU32 | name-as/src/nma.rs:196-218 | the four bytes written read back, least significant first, as the word |
| NmaEncode.AddExample | name-as/src/nma.rs:290-355 | `add $t0, $zero, $zero` encodes as 0x00004020 |
| NmaEncode.OriExample | name-as/src/nma.rs:358-451 | `ori $t1, $zero, imm` has opcode 0xd, rs 0, rt 9 and the immediate |
| NmaEncode.LuiExample | name-as/src/nma.rs:358-451 | `lui $t0, imm` has opcode 0xf, rs 0, rt 8 and the immediate |
| NmaEncode.HexImmediate | name-as/src/nma.rs:373-376 | a hexadecimal immediate below 2^16 reaches the immediate field unchanged |
| NmaEncode.UndeclaredBranchExample | name-as/src/nma.rs:396-405 | a branch to a label never declared is "Undeclared label" |
| NmaEncode.ImpliedOffset | name-as/src/nma.rs:378-395 | `lw rt, rs` assembles exactly as `lw rt, 0, rs` |
| Text.Fields | name-as/src/nma.rs:517 | the pieces of `split_whitespace` are non-empty and free of separators |
| Text.FieldsKeepContent | src/nma.rs:97-102 | splitting loses exactly the separators |
| Text.FieldsOfJoin | name-as/src/nma.rs:537 | separator-free tokens joined with one separator split back into themselves |
| Text.LinesOfJoin | name-as/src/nma.rs:505-540 | lines without line feeds joined with `\n` come back from `lines` |
| Text.Trim | name-as/src/nma.rs:506 | a trimmed line neither starts nor ends with white space |
| Text.Find | name-as/src/nma.rs:509-511 | the index of the first occurrence of the character, or none when it is absent |
| NmaPreprocess.Uncommented | name-as/src/nma.rs:506-511 | a line trimmed and cut at its first `#` holds no `#` and does not start with white space |
| NmaPreprocess.ClassifyMeaning | name-as/src/nma.rs:513-523 | a blank line is skipped; a `.eqv` line defines its second token as its third; a `.eqv` line with fewer than three tokens panics |
| NmaPreprocess.Substitute | name-as/src/nma.rs:526-535 | each token is replaced by its definition when it has one and kept otherwise |
| NmaPreprocess.ProcessFrom | name-as/src/nma.rs:500-541 | never fails with an error; writes at most one line per input line |
| NmaPreprocess.Preprocess | name-as/src/nma.rs:500-541 | the loop's result is the functional specification of preprocessing |
| NmaPreprocess.PreprocessIdempotent | name-as/src/nma.rs:500-541 | preprocessing its own output changes nothing, when no definition has the value `.eqv` |
| NmaPreprocess.PreprocessedText | name-as/src/nma.rs:500-541 | the output holds no `#` and its lines are single-space-separated tokens |
| NmaPreprocess.OutputClean | name-as/src/nma.rs:500-541 | every written line is a non-empty run of tokens joined by single spaces |
| NmaPreprocess.ReprocessClean | name-as/src/nma.rs:500-541 | clean lines that do not start with `.eqv` pass through unchanged |
| NmaPreprocess.LaterDefinitionWins | name-as/src/nma.rs:520-523 | of two consecutive definitions of a name, the later one is in force |
| NmaPreprocess.DefineStep | name-as/src/nma.rs:520-523 | a definition writes no line and puts the definition in force for the rest |
| NmaPreprocess.CodeStep | name-as/src/nma.rs:526-537 | a code line writes its substituted tokens joined with spaces, ahead of the rest |
| NmaAssemble.InstrCount | name-as/src/nma.rs:591-607 | the instructions of a run of statements are at most its length |
| NmaAssemble.AssignLabels | name-as/src/nma.rs:586-607 | the loop of pass 1 computes the label map of its functional specification |
| NmaAssemble.AdvanceCount | name-as/src/nma.rs:591-607 | pass 1 advances by one word per instruction and by nothing else |
| NmaAssemble.LabelsFromUndeclared | name-as/src/nma.rs:591-607 | a name never declared as a label is in pass 1's map exactly when it was before, with the same address |
| NmaAssemble.LabelsFromDeclared | name-as/src/nma.rs:593-599 | a declared label is mapped to the address reached just before its last declaration |
| NmaAssemble.LabelAddress | name-as/src/nma.rs:586-607 | a label is bound to the address of the instruction after its last declaration |
| NmaAssemble.UndeclaredLabel | name-as/src/nma.rs:586-607 | only declared labels are bound |
| NmaAssemble.EncodeInstructionMeaning | name-as/src/nma.rs:623-669 | the R table is tried first, then I, then J; a mnemonic in none is "Failed to match instruction" |
| NmaAssemble.Pass2 | name-as/src/nma.rs:609-681 | at most one word per recorded line; on success exactly one word and one line per instruction |
| NmaAssemble.Serialize | name-as/src/nma.rs:196-218 | four bytes per word |
| NmaAssemble.SerializeReadBack | name-as/src/nma.rs:196-218 | the `k`-th four bytes of the output read back, least significant first, as the `k`-th word |
| NmaAssemble.Assemble | name-as/src/nma.rs:609-690 | the bytes written are the words of pass 2 in order; the result is the line information on success or the first error |
| NmaAssemble.Pass2Skip | name-as/src/nma.rs:671-677 | with the intended pass 2 (no advance past a directive), a label or an accepted directive leaves pass 2's address alone |
| NmaAssemble.Pass2Emit | name-as/src/nma.rs:614-669 | an encoded instruction is written and recorded at the current address, and pass 2 goes on one word later |
| NmaAssemble.Pass2Stop | name-as/src/nma.rs:614-676 | an unknown directive or an encoding error ends pass 2 with that error and writes nothing more |
| NmaAssemble.Pass2Addresses | name-as/src/nma.rs:614-619 | with the intended pass 2 (no advance past a directive), the `k`-th recorded instruction sits `k` words after the start |
| NmaAssemble.LabelsMatchPass2 | name-as/src/nma.rs:586-681 | the address pass 1 gives a label is the address at which pass 2 encodes the instruction after it |
| NmaAssemble.UnknownDirective | name-as/src/nma.rs:671-676 | a directive other than `.text`, `.data`, `.eqv` ends assembly with "Directive .name not yet supported", keeping the words already written |
| NmaAssemble.DirectiveShiftsAddresses | name-as/src/nma.rs:671-680 | as written, a `.text` directive before a self-branch shifts pass 2's addresses by one word against pass 1 |
| TokenAsm.Mask | src/nma.rs:10-16 | the result fits in `x` bits, equals `n` when `n` does, and differs from `n` only in bits at or above `x` |
| TokenAsm.MaskIdempotent | src/nma.rs:10-16 | masking twice is masking once |
| TokenAsm.ROperation | src/nma.rs:54-83 | found exactly for the R mnemonics; `sll`/`srl` take a shift amount; otherwise its error message |
| TokenAsm.IOperation | src/nma.rs:86-94 | found exactly for `lui`; otherwise its error message |
| TokenAsm.TablesAgree | src/nma.rs:54-94 | each entry agrees with the syntax-tree-driven assembler's table on funct, opcode and operand form |
| TokenAsm.Tokenize | src/nma.rs:97-102 | every token is non-empty and free of commas and white space |
| TokenAsm.TokenizeRoundTrip | src/nma.rs:97-102 | tokens joined with spaces split back into themselves; tokenizing drops exactly the separators |
| TokenAsm.WriteU32 | src/nma.rs:105-120 | the four bytes read back, most significant first, as the word |
| TokenAsm.ByteOrdersDiffer | src/nma.rs:105-120 | the two assemblers write each word in opposite byte orders |
| TokenAsm.AssembleR | src/nma.rs:195-259 | per form, succeeds exactly when the registers resolve and the decimal shift amount fits a `u8`; the fields hold the operands, with the shift amount cut to five bits; opcode 0 and the table's funct; the placeholder form is "Unexpected R_form" |
| TokenAsm.MaskedR | src/nma.rs:222-249 | the word has opcode 0 and rs, rt, rd and shamt cut to their low five bits, funct to its low six |
| TokenAsm.AssembleI | src/nma.rs:262-313 | `rt, imm` operands give the opcode, rt and immediate fields; the placeholder form is "Unexpected I_form" |
| TokenAsm.StripComma | src/nma.rs:380-402 | one trailing comma is removed from an operand; other operands are unchanged |
| TokenAsm.Assemble | src/nma.rs:316-434 | the loop's output and status are those of the functional run over the tokens |
| TokenAsm.ScanCollected | src/nma.rs:350-404 | reading a token from a valid state writes nothing and leaves the operands not yet past their count |
| TokenAsm.FlushValid | src/nma.rs:406-431 | flushing an instruction keeps the state valid and only appends to the output |
| TokenAsm.FeedValid | src/nma.rs:346-432 | one iteration keeps the state valid and only appends |
| TokenAsm.RunValid | src/nma.rs:316-434 | the assembler writes whole words only and never takes back what it wrote |
| TokenAsm.OutputWords | src/nma.rs:316-434 | the whole output is a sequence of whole words |
| TokenAsm.MainRequired | src/nma.rs:351-354 | an empty program assembles to nothing; a program not opening with `main:` is refused |
| TokenAsm.SkipUnknown | src/nma.rs:355-379 | while scanning, a token that is no known mnemonic is skipped silently |
| TokenAsm.IncompleteTail | src/nma.rs:346-434 | an instruction cut short by the end of the input is dropped without an error |
| TokenAsm.CollectQuietly | src/nma.rs:380-431 | collecting operands below the count writes nothing |
| TokenAsm.CompleteR | src/nma.rs:355-418 | an R mnemonic and three operands write the word `assemble_r` gives, most significant byte first, or stop with its error |
| TokenAsm.CompleteI | src/nma.rs:369-429 | `lui` and two operands write the word `assemble_i` gives, or stop with its error |
| TokenAsm.AddProgram | src/nma.rs:316-434 | `main: add $t0 $zero $zero` writes bytes 00 00 40 20 |
| Word.PackRFields | src/mips.rs:121-127 | an R word is rebuilt from its fields |
| Word.PackIFields | src/mips.rs:138-143 | an I word is rebuilt from its fields |
| Word.LeBytes | src/mips.rs:182-186 | the little-endian bytes of a word read back as the word |
| Word.LeBytesOfLeWord | src/mips.rs:182-186 | four bytes read as a little-endian word and split again are unchanged |
| Emulator.Mips.Default | src/mips.rs:30-43 | all registers zero, pc at `.text`, one empty `.text` region of 0x1000 bytes |
| Emulator.FreshMachineCannotStep | src/mips.rs:30-43 | on a fresh machine, an address in `.text` reads as uninitialised and any other as unknown, so the first step fails |
| Emulator.Locate | src/mips.rs:152-163 | the first region whose range holds the address, or none when no region does |
| Emulator.Mips.MapMemory | src/mips.rs:152-163 | the loop finds the region `Locate` gives, with the offset of the address within it |
| Emulator.LoadB | src/mips.rs:166-177 | an unknown-access error exactly when no region holds the address; an uninitialised-access error exactly when the offset in the region is at or past its bytes so far; otherwise the byte at that offset |
| Emulator.Mips.ReadB | src/mips.rs:166-177 | the result is the byte load of the current memory |
| Emulator.Mips.ReadH | src/mips.rs:178-181 | the result is the half-word load of the current memory |
| Emulator.Mips.ReadW | src/mips.rs:182-186 | the result is the word load of the current memory |
| Emulator.StoreB | src/mips.rs:189-195 | an unknown-access error exactly when no region holds the address; a panic exactly when the offset in the region is at or past its bytes so far; success exactly when the offset is within them; on success every region keeps its base, range and length |
| Emulator.Mips.WriteB | src/mips.rs:189-195 | the memory after a successful write is the byte store; on failure nothing changes; registers and pc stay |
| Emulator.StoreKeepsMap | src/mips.rs:189-195 | a byte store changes no region lookup |
| Emulator.StoreThenLoad | src/mips.rs:189-195 | after a byte store the address reads the new byte and every other address reads as before |
| Emulator.Mips.WriteH | src/mips.rs:196-202 | on success the memory is the half-word store at two consecutive addresses; registers and pc stay |
| Emulator.Mips.WriteW | src/mips.rs:203-211 | on success the memory is the word store at four consecutive addresses; registers and pc stay |
| Emulator.StoreHThenLoadH | src/mips.rs:196-202 | a half-word stored at consecutive addresses reads back as itself |
| Emulator.StoreWThenLoadW | src/mips.rs:203-211 | a word stored at consecutive addresses reads back as itself |
| Emulator.StoreHAsWrittenKeepsHighByte | src/mips.rs:196-202 | as written, the address ends with the high byte and the next address is untouched |
| Emulator.StoreWAsWrittenKeepsTopByte | src/mips.rs:203-211 | as written, the address ends with the top byte and the next three addresses are untouched |
| Emulator.WordRoundTripExample | src/mips.rs:203-211 | as written, storing 0x11223344 into zeroed `.text` reads back 0x11; as intended, it reads back 0x11223344 |
| Emulator.Index5 | src/mips.rs:121-127 | a five-bit field is a register index below 32 |
| Emulator.Decode | src/mips.rs:115-146 | as written: a well-formed instruction, R-type exactly when the five bits above bit 26 are zero |
| Emulator.DecodeFixed | src/mips.rs:115-146 | a well-formed instruction, R-type exactly when the six-bit opcode is zero |
| Emulator.DecodeFixedPackR | src/mips.rs:115-146 | decoding an R word gives back its fields |
| Emulator.DecodeFixedPackI | src/mips.rs:115-146 | decoding an I word with a non-zero opcode gives back its fields |
| Emulator.DecodeSwapsRtRd | src/mips.rs:121-127 | as written, decoding an R word swaps rt and rd |
| Emulator.DecodeDropsOpcodeBit | src/mips.rs:116 | as written, an opcode of 32 or more loses its top bit (opcode 32 becomes R-type) |
| Emulator.AluR | src/mips.rs:71-98 | a value exactly for the implemented functs (sll, srl, add, sub, xor) |
| Emulator.SubIsAdd | src/mips.rs:86-90 | as written, `sub` computes the sum `add` computes |
| Emulator.SubExample | src/mips.rs:86-90 | with 5 and 3 in the sources, `sub` gives 8 as written and 2 as intended |
| Emulator.SubUndoesAdd | src/mips.rs:81-90 | with the intended `sub`, subtracting what was added restores the value |
| Emulator.XorTwice | src/mips.rs:91-94 | `xor` with the same operand twice restores it |
| Emulator.ExecR | src/mips.rs:71-98 | never an error, succeeds exactly for the implemented functs, writes the result to rd and leaves every other register alone; otherwise the "R-Type unimplemented instruction" panic |
| Emulator.Mips.DispatchR | src/mips.rs:71-98 | the register file after the call is that of `ExecR` with the intended `sub` |
| Emulator.AluI | src/mips.rs:99-113 | a value exactly for `ori` and `lui`; `ori` keeps the high half; `lui` puts the immediate in the high half and zeroes the low half |
| Emulator.LuiThenOri | src/mips.rs:99-113 | `lui` then `ori` load the 32-bit constant whose halves are the two immediates |
| Emulator.ExecI | src/mips.rs:99-113 | never an error, succeeds exactly for `ori` and `lui`, writes rt only; otherwise the "I-type unimplemented instruction" panic |
| Emulator.Mips.DispatchI | src/mips.rs:99-113 | the register file after the call is that of `ExecI` |
| Emulator.Execute | src/mips.rs:219-222 | never an error; the register file keeps its 32 registers |
| Emulator.StepAsWritten | src/mips.rs:213-222 | as written: fails exactly when the fetch fails, and moves pc by one byte |
| Emulator.Step | src/mips.rs:213-222 | fails exactly when the fetch fails, and moves pc by one word |
| Emulator.StepAsWrittenMisaligns | src/mips.rs:215 | as written, a step leaves pc misaligned relative to where it was |
| Emulator.StepKeepsAlignment | src/mips.rs:213-222 | with the intended increment, a step keeps pc's alignment |
| Emulator.WrapAddResidue | src/mips.rs:213-222 | wrapping at 2^32 keeps an address's remainder modulo 4 |
| Emulator.LoadWFromText | src/mips.rs:182-186 | a word fetched from `.text` is the little-endian reading of its four bytes |
| Emulator.FirstFetch | src/mips.rs:213-222 | the first word of the `lui`/`ori` program is 0x3C081234 |
| Emulator.LoadConstantExample | src/mips.rs:213-222 | with the intended behaviour, `lui $t0, 0x1234` and `ori $t0, $t0, 0x5678` load 0x12345678 into `$t0` |
| Emulator.LoadConstantExampleAsWritten | src/mips.rs:213-222 | as written, the second step fetches from one byte on and panics on the unimplemented opcode 0x1E |
| Emulator.Mips.StepOne | src/mips.rs:213-222 | the machine after one step is that of `Step`: fetch, advance pc, decode, dispatch; memory unchanged; a failed fetch leaves registers and pc unchanged |

## Left out

- File input and output are left out: reading the source file, creating the output file, and the write errors "Failed to write to output binary" and the file-open errors. Output is the byte sequence the file would receive.
- The console output (`println!`) and the export of line information to a `.li` file are left out.
- The pest grammar and `parse_rule` are left out. Pass 1 and pass 2 start from the parsed statement list. `instr_to_str` is left out: recorded line information keeps the instruction address, line number, mnemonic, operands and pseudo-op, and the mnemonic and operands stand in for `instr_to_str`'s text.
- The `Config`/`Args` switches are left out. The preprocessor and the assembler are separate operations.
- The emulator's floating-point registers and the `mult_hi`/`mult_lo` registers are left out. No implemented instruction uses them.
- Arithmetic overflow panics of debug builds are left out. All `u32` arithmetic wraps as in a release build.
- The emulator's pc is a `usize` that is only used through `as u32`. It is modelled as a `u32` address with explicit wrap-around.
- Register `$zero` is not hardwired to zero, in the source or in the model.
- J-type decoding and execution are left out. The source decodes every non-zero opcode as I-type and has no J dispatcher.
- Branch encoding keeps the source's immediate of label address minus instruction address. It does not use the MIPS convention of a word offset relative to the next instruction.
- NmaAssemble.Assemble: models pass 2 without the as-written advance past a directive. That advance is modelled separately (see Findings).
- NmaAssemble.Pass2Skip and NmaAssemble.Pass2Addresses: stated for the intended pass 2 only. As written, an accepted directive moves the address on by a word, so the `k`-th instruction sits `k` words plus one word per earlier directive after the start (see `DirectiveShiftsAddresses`).
- Registers.AssembleReg: as the code does, only a three-byte decimal literal such as `012` resolves through the numeric branch; `$0` to `$31` written as numbers are refused, although the branch's comment names `$0` as its purpose (`DollarNumberRefused`, `NumericTokens`).
- Emulator.Mips.WriteH: the memory after a failed write is not specified. The source may already have stored the first byte when the second fails.
- Emulator.Mips.WriteW: the memory after a failed write is not specified. The source may already have stored some bytes when a later one fails.
- Emulator.Mips.StepOne: does not state the registers or the program counter after a panic, which ends the emulator.
- Emulator.Mips.DispatchR, Emulator.Mips.DispatchI, Emulator.Mips.StepOne and Emulator.Mips.WriteH / Emulator.Mips.WriteW follow the corrected behaviour of the Findings below. The as-written behaviour is modelled by the functions `Decode`, `StepAsWritten`, `StoreHAsWritten` and `StoreWAsWritten`, and by `AluR` with `fixed == false`.

## Findings

| source | as written | input that shows it | evidently intended | confidence | as-written member | corrected member |
|---|---|---|---|---|---|---|
| name-as/src/nma.rs:671-680 | a directive in pass 2 falls through to the address increment, while pass 1 skips it | `.text` then `L: beq $t0, $t0, L`: pass 1 puts `L` at 0x400000 and pass 2 encodes the branch at 0x400004 | directives do not occupy an address in either pass | high, not executed | NmaAssemble.DirectiveShiftsAddresses | NmaAssemble.LabelsMatchPass2 |
| src/mips.rs:121-127 | decode reads rd from bits 20-16 and rt from bits 15-11 | `add $t2, $t0, $t1` executes with rd and rt swapped, writing `$t1` | rt is bits 20-16 and rd is bits 15-11, as the assembler packs them | high, not executed | Emulator.DecodeSwapsRtRd | Emulator.DecodeFixedPackR |
| src/mips.rs:116 | the opcode is masked to five bits | opcode 0x23 (`lw`) decodes as opcode 3; opcode 0x20 decodes as R-type | the six-bit opcode | high, not executed | Emulator.DecodeDropsOpcodeBit | Emulator.DecodeFixedPackI |
| src/mips.rs:86-90 | `sub` adds its operands | 5 and 3 give 8 | the difference rs - rt, 2 | high, not executed | Emulator.SubIsAdd | Emulator.SubUndoesAdd |
| src/mips.rs:196-211 | `write_h` and `write_w` store every byte at the same address | storing 0x11223344 at the start of `.text` leaves 0x11 there and the next three bytes untouched | bytes at consecutive addresses | high, not executed | Emulator.StoreWAsWrittenKeepsTopByte | Emulator.StoreWThenLoadW |
| src/mips.rs:215 | `step_one` advances pc by one byte | `lui $t0, 0x1234; ori $t0, $t0, 0x5678`: the second fetch starts one byte in and panics | pc moves by four | high, not executed | Emulator.LoadConstantExampleAsWritten | Emulator.LoadConstantExample |
