/** Encoding of single instructions by the syntax-tree-driven assembler
    (name-as/src/nma.rs): operands are checked, parsed and packed into a word. */
module NmaEncode {
  import opened Outcome
  import opened Word
  import opened Registers
  import opened NmaFields
  import opened NmaCatalog

  /** `enforce_length`. */
  function EnforceLength(args: seq<string>, len: nat): (r: Result<bv32, string>)
    ensures !r.Panic?
    ensures r.Ok? <==> |args| == len
    ensures r.Ok? ==> r.value == 0
    ensures r.Err? ==> r.error == "Failed length enforcement"
  {
    if |args| != len then Err("Failed length enforcement") else Ok(0)
  }

  /** A shift amount: any `u32` literal, cut to its low byte (`v as u8`). */
  function ParseShamt(arg: string): (r: Result<bv8, string>)
    ensures !r.Panic?
    ensures r.Ok? <==> BaseParse(arg).Ok?
    ensures r.Ok? ==> r.value as bv32 == BaseParse(arg).value & 0xFF
    ensures r.Err? ==> r.error == "Failed to parse shamt"
  {
    var p := BaseParse(arg);
    if p.Ok? then Ok((p.value & 0xFF) as bv8) else Err("Failed to parse shamt")
  }

  /** An immediate: any `u32` literal, cut to its low half-word (`v as u16`). */
  function ParseImm(arg: string): (r: Result<bv16, string>)
    ensures !r.Panic?
    ensures r.Ok? <==> BaseParse(arg).Ok?
    ensures r.Ok? ==> r.value as bv32 == BaseParse(arg).value & 0xFFFF
    ensures r.Err? ==> r.error == "Failed to parse imm"
  {
    var p := BaseParse(arg);
    if p.Ok? then Ok((p.value & 0xFFFF) as bv16) else Err("Failed to parse imm")
  }

  /** The register number an operand names, as a field value. */
  ghost function Reg(arg: string): bv32
    requires AssembleReg(arg).Ok?
  {
    AssembleReg(arg).value as bv32
  }

  /** `assemble_r`: `rd, rs, rt` or `rd, rt, shamt`, packed with the table's funct. */
  function AssembleR(op: R, args: seq<string>): (r: Result<bv32, string>)
    ensures op.form == RdRsRt ==>
      (r.Ok? <==> |args| == 3 && AssembleReg(args[0]).Ok? && AssembleReg(args[1]).Ok?
                  && AssembleReg(args[2]).Ok? && op.shamt < 32 && op.funct < 64)
    ensures op.form == RdRsRt && r.Ok? ==>
      Rd(r.value) == Reg(args[0]) && Rs(r.value) == Reg(args[1]) && Rt(r.value) == Reg(args[2])
      && Shamt(r.value) == op.shamt as bv32
    ensures op.form == RdRtShamt ==>
      (r.Ok? <==> |args| == 3 && AssembleReg(args[0]).Ok? && AssembleReg(args[1]).Ok?
                  && ParseShamt(args[2]).Ok? && ParseShamt(args[2]).value < 32 && op.funct < 64)
    ensures op.form == RdRtShamt && r.Ok? ==>
      Rd(r.value) == Reg(args[0]) && Rs(r.value) == 0 && Rt(r.value) == Reg(args[1])
      && Shamt(r.value) == ParseShamt(args[2]).value as bv32
    ensures r.Ok? ==> Opcode(r.value) == 0 && Funct(r.value) == op.funct as bv32
  {
    var ok :- EnforceLength(args, 3);
    var rd :- AssembleReg(args[0]);
    var operands: Result<(bv8, bv8, bv8), string> :=
      match op.form
      case RdRsRt =>
        var rs :- AssembleReg(args[1]);
        var rt :- AssembleReg(args[2]);
        Ok((rs, rt, op.shamt))
      case RdRtShamt =>
        var rt :- AssembleReg(args[1]);
        var shamt :- ParseShamt(args[2]);
        Ok((0, rt, shamt));
    var (rs, rt, shamt) :- operands;
    MaskedR(rd, rs, rt, shamt, op.funct)
  }

  /** The masking and packing step of `assemble_r`: the four register-sized
      fields to five bits and the funct to six. Every mask fails with the same
      message, so checking them together is the same as checking them one after
      the other. */
  function MaskedR(rd: bv8, rs: bv8, rt: bv8, shamt: bv8, funct: bv8): (r: Result<bv32, string>)
    requires rd <= 31 && rs <= 31 && rt <= 31
    ensures r.Ok? <==> shamt < 32 && funct < 64
    ensures r.Ok? ==> (Opcode(r.value) == 0 && Rs(r.value) == rs as bv32 && Rt(r.value) == rt as bv32
                       && Rd(r.value) == rd as bv32 && Shamt(r.value) == shamt as bv32
                       && Funct(r.value) == funct as bv32)
  {
    match (MaskU8(rs, 5), MaskU8(rt, 5), MaskU8(rd, 5), MaskU8(shamt, 5), MaskU8(funct, 6))
    case (Ok(rs'), Ok(rt'), Ok(rd'), Ok(shamt'), Ok(funct')) =>
      Ok(PackR(rs' as bv32, rt' as bv32, rd' as bv32, shamt' as bv32, funct' as bv32))
    case _ => Err("Masking error")
  }

  /** The operands of a load or store: `rt, imm, rs`, or `rt, rs` with an
      implied immediate of `0` put back in the middle. */
  function WithImpliedOffset(args: seq<string>): (r: seq<string>)
    ensures |args| == 2 ==> r == [args[0], "0", args[1]]
    ensures |args| != 2 ==> r == args
  {
    if |args| == 2 then args[..1] + ["0"] + args[1..] else args
  }

  /** The `rs`, `rt` and immediate fields of an I-type instruction. */
  datatype IFields = IFields(rs: bv8, rt: bv8, imm: bv16)

  /** `lui`-style operands `rt, imm`; `rs` is zero. */
  function RtImmOperands(args: seq<string>): (r: Result<IFields, string>)
    ensures r.Ok? <==> |args| == 2 && AssembleReg(args[0]).Ok? && ParseImm(args[1]).Ok?
    ensures r.Ok? ==> r.value == IFields(0, AssembleReg(args[0]).value, ParseImm(args[1]).value)
  {
    var ok :- EnforceLength(args, 2);
    var rt :- AssembleReg(args[0]);
    var imm :- ParseImm(args[1]);
    Ok(IFields(0, rt, imm))
  }

  /** Load and store operands `rt, imm, rs`, the immediate defaulting to zero. */
  function RtImmRsOperands(args: seq<string>): (r: Result<IFields, string>)
    ensures var a := WithImpliedOffset(args);
      r.Ok? <==> |a| == 3 && AssembleReg(a[0]).Ok? && ParseImm(a[1]).Ok? && AssembleReg(a[2]).Ok?
    ensures var a := WithImpliedOffset(args);
      r.Ok? ==> r.value == IFields(AssembleReg(a[2]).value, AssembleReg(a[0]).value, ParseImm(a[1]).value)
  {
    var a := WithImpliedOffset(args);
    var ok :- EnforceLength(a, 3);
    var rt :- AssembleReg(a[0]);
    var imm :- ParseImm(a[1]);
    var rs :- AssembleReg(a[2]);
    Ok(IFields(rs, rt, imm))
  }

  /** Immediate-arithmetic operands `rt, rs, imm`. */
  function RtRsImmOperands(args: seq<string>): (r: Result<IFields, string>)
    ensures r.Ok? <==> |args| == 3 && AssembleReg(args[0]).Ok? && AssembleReg(args[1]).Ok? && ParseImm(args[2]).Ok?
    ensures r.Ok? ==> r.value == IFields(AssembleReg(args[1]).value, AssembleReg(args[0]).value, ParseImm(args[2]).value)
  {
    var ok :- EnforceLength(args, 3);
    var rt :- AssembleReg(args[0]);
    var rs :- AssembleReg(args[1]);
    var imm :- ParseImm(args[2]);
    Ok(IFields(rs, rt, imm))
  }

  /** Branch operands `rs, rt, label`: the immediate is the low half of the
      label's address minus the branch's own address, in wrapping arithmetic. */
  function BranchOperands(args: seq<string>, labels: map<string, bv32>, addr: bv32): (r: Result<IFields, string>)
    ensures r.Ok? <==> |args| == 3 && AssembleReg(args[0]).Ok? && AssembleReg(args[1]).Ok? && args[2] in labels
    ensures r.Ok? ==> r.value.rs == AssembleReg(args[0]).value && r.value.rt == AssembleReg(args[1]).value
    ensures r.Ok? ==> r.value.imm as bv32 == (labels[args[2]] - addr) & 0xFFFF
    ensures |args| == 3 && AssembleReg(args[0]).Ok? && AssembleReg(args[1]).Ok? && args[2] !in labels ==>
      r == Err("Undeclared label")
  {
    var ok :- EnforceLength(args, 3);
    var rs :- AssembleReg(args[0]);
    var rt :- AssembleReg(args[1]);
    if args[2] in labels then Ok(IFields(rs, rt, ((labels[args[2]] - addr) & 0xFFFF) as bv16))
    else Err("Undeclared label")
  }

  /** The operands of an I-type instruction, read as its form says. */
  function IOperands(form: IForm, args: seq<string>, labels: map<string, bv32>, addr: bv32): Result<IFields, string> {
    match form
    case RtImm => RtImmOperands(args)
    case RtImmRs => RtImmRsOperands(args)
    case RtRsImm => RtRsImmOperands(args)
    case RsRtLabel => BranchOperands(args, labels, addr)
  }

  /** `assemble_i`: the operands of the form, packed with the table's opcode. */
  function AssembleI(op: I, args: seq<string>, labels: map<string, bv32>, addr: bv32): (r: Result<bv32, string>)
    ensures var f := IOperands(op.form, args, labels, addr);
      r.Ok? <==> f.Ok? && op.opcode < 64
    ensures var f := IOperands(op.form, args, labels, addr);
      r.Ok? ==> (Opcode(r.value) == op.opcode as bv32 && Rs(r.value) == f.value.rs as bv32
                 && Rt(r.value) == f.value.rt as bv32 && Imm(r.value) == f.value.imm as bv32)
  {
    var f :- IOperands(op.form, args, labels, addr);
    MaskedI(op.opcode, f)
  }

  /** The masking and packing step of `assemble_i`: registers to five bits and
      the opcode to six, or a masking error. */
  function MaskedI(opcode: bv8, f: IFields): (r: Result<bv32, string>)
    requires f.rs <= 31 && f.rt <= 31
    ensures r.Ok? <==> opcode < 64
    ensures r.Ok? ==> (Opcode(r.value) == opcode as bv32 && Rs(r.value) == f.rs as bv32
                       && Rt(r.value) == f.rt as bv32 && Imm(r.value) == f.imm as bv32)
  {
    match (MaskU8(f.rs, 5), MaskU8(f.rt, 5), MaskU8(opcode, 6))
    case (Ok(rs), Ok(rt), Ok(op)) => Ok(PackI(op as bv32, rs as bv32, rt as bv32, f.imm as bv32))
    case _ => Err("Masking error")
  }

  /** `assemble_j`: the label's address, which must lie below 2^28, as a word
      index next to the opcode. A label that was never declared panics. */
  function AssembleJ(op: J, args: seq<string>, labels: map<string, bv32>): (r: Result<bv32, string>)
    ensures r.Ok? <==> |args| == 1 && args[0] in labels && labels[args[0]] < 0x1000_0000 && op.opcode < 64
    ensures r.Panic? <==> |args| == 1 && args[0] !in labels
    ensures r.Ok? ==> Opcode(r.value) == op.opcode as bv32 && Target(r.value) == labels[args[0]] >> 2
  {
    var ok :- EnforceLength(args, 1);
    if args[0] !in labels then Panic("label used by a jump was never declared")
    else
      var jumpAddress := labels[args[0]];
      var masked :- MaskU32(jumpAddress, 28);
      if jumpAddress != masked then Err("Tried to assemble illegal jump address")
      else match MaskU8(op.opcode, 6)
        case Ok(opcode) => Ok(JWord(opcode, masked))
        case _ => Err("Masking error")
  }

  /** A jump word: the opcode and the word index of an address below 2^28. */
  function JWord(opcode: bv8, address: bv32): (w: bv32)
    requires opcode < 64 && address >> 28 == 0
    ensures Opcode(w) == opcode as bv32 && Target(w) == address >> 2
  {
    assert address >> 2 < 0x400_0000;
    PackJ(opcode as bv32, address >> 2)
  }

  /** The byte swap the encoder applies before writing a word most significant byte first. */
  function ConvertEndianness(w: bv32): (r: bv32)
    ensures BeBytes(r) == LeBytes(w)
  {
    ((w & 0x0000_00FF) << 24) | ((w & 0x0000_FF00) << 8) | ((w & 0x00FF_0000) >> 8) | ((w & 0xFF00_0000) >> 24)
  }

  /** Swapping twice restores the word. */
  lemma ConvertEndiannessInvolution(w: bv32)
    ensures ConvertEndianness(ConvertEndianness(w)) == w
  {
  }

  /** `write_u32`: the four bytes the encoder emits for a word, least significant first. */
  function WriteU32(w: bv32): (b: seq<bv8>)
    ensures |b| == 4 && LeWord(b) == w
  {
    BeBytes(ConvertEndianness(w))
  }

  lemma Tokens()
    ensures AssembleReg("$zero") == Ok(0) && AssembleReg("$t0") == Ok(8) && AssembleReg("$t1") == Ok(9)
  {
    NamedAliases();
    NumberedName("$t0");
    NumberedName("$t1");
  }

  /** `add $t0, $zero, $zero` is funct 0x20 with rd 8 and every other field zero. */
  lemma AddExample()
    ensures AssembleR(ROperation("add").value, ["$t0", "$zero", "$zero"]) == Ok(0x0000_4020)
  {
    Tokens();
  }

  /** A hexadecimal immediate that fits in 16 bits reaches the immediate field unchanged. */
  lemma HexImmediate(imm: nat)
    requires imm <= 0xFFFF
    ensures ParseImm("0x" + RustNum.Render(imm, 16)).Ok?
    ensures ParseImm("0x" + RustNum.Render(imm, 16)).value as bv32 == imm as bv32
  {
    PrefixedRoundTrip(imm, 'x', 16);
    HalfWordBound(imm);
    LowHalfOf(imm as bv32);
  }

  /** `ori $t1, $zero, imm` is opcode 0xd, rs 0, rt 9 and the immediate. */
  lemma OriExample(imm: nat)
    requires imm <= 0xFFFF
    ensures var r := AssembleI(IOperation("ori").value, ["$t1", "$zero", "0x" + RustNum.Render(imm, 16)], map[], 0x40_0000);
      r.Ok? && Opcode(r.value) == 0xd && Rs(r.value) == 0 && Rt(r.value) == 9 && Imm(r.value) == imm as bv32
  {
    Tokens();
    HexImmediate(imm);
  }

  /** `lui $t0, imm` is opcode 0xf, rs 0, rt 8 and the immediate. */
  lemma LuiExample(imm: nat)
    requires imm <= 0xFFFF
    ensures var r := AssembleI(IOperation("lui").value, ["$t0", "0x" + RustNum.Render(imm, 16)], map[], 0x40_0000);
      r.Ok? && Opcode(r.value) == 0xf && Rs(r.value) == 0 && Rt(r.value) == 8 && Imm(r.value) == imm as bv32
  {
    Tokens();
    HexImmediate(imm);
  }

  /** A branch to a label that was never declared is refused. */
  lemma UndeclaredBranchExample()
    ensures AssembleI(IOperation("beq").value, ["$t0", "$t1", "done"], map[], 0x40_0000) == Err("Undeclared label")
  {
    Tokens();
  }

  /** A load written without an offset is the load with offset zero. */
  lemma ImpliedOffset(rt: string, rs: string, labels: map<string, bv32>, addr: bv32)
    ensures AssembleI(IOperation("lw").value, [rt, rs], labels, addr) == AssembleI(IOperation("lw").value, [rt, "0", rs], labels, addr)
  {
  }
}
