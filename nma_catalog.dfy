/** The instruction tables of the syntax-tree-driven assembler (name-as/src/nma.rs):
    which mnemonics it knows and the fixed parts of their encodings. */
module NmaCatalog {
  import opened Outcome

  /** Which operands an R-type instruction takes, in order. */
  datatype RForm = RdRsRt | RdRtShamt

  /** The fixed fields of an R-type instruction. */
  datatype R = R(shamt: bv8, funct: bv8, form: RForm)

  /** Which operands an I-type instruction takes, in order. */
  datatype IForm = RtImm | RtImmRs | RtRsImm | RsRtLabel

  /** The fixed fields of an I-type instruction. */
  datatype I = I(opcode: bv8, form: IForm)

  /** The fixed field of a J-type instruction. */
  datatype J = J(opcode: bv8)

  const RMnemonics: set<string> := {"add", "sub", "sll", "srl", "xor"}
  const IMnemonics: set<string> :=
    {"ori", "lb", "lbu", "lh", "lhu", "lw", "ll", "lui", "sb", "sh", "sw", "sc", "beq", "bne"}
  const JMnemonics: set<string> := {"j", "jal"}

  /** `r_operation`: the R-type table. */
  function ROperation(mnemonic: string): (r: Result<R, string>)
    ensures !r.Panic?
    ensures r.Ok? <==> mnemonic in RMnemonics
    ensures r.Ok? ==> r.value.shamt == 0 && r.value.funct < 64
    ensures r.Ok? ==> (r.value.form == RdRtShamt <==> mnemonic in {"sll", "srl"})
    ensures r.Err? ==> r.error == "Failed to match R-instr mnemonic"
  {
    match mnemonic
    case "add" => Ok(R(0, 0x20, RdRsRt))
    case "sub" => Ok(R(0, 0x22, RdRsRt))
    case "sll" => Ok(R(0, 0x00, RdRtShamt))
    case "srl" => Ok(R(0, 0x02, RdRtShamt))
    case "xor" => Ok(R(0, 0x26, RdRsRt))
    case _ => Err("Failed to match R-instr mnemonic")
  }

  /** `i_operation`: the I-type table. */
  function IOperation(mnemonic: string): (r: Result<I, string>)
    ensures !r.Panic?
    ensures r.Ok? <==> mnemonic in IMnemonics
    ensures r.Ok? ==> 0 < r.value.opcode < 64 && r.value.opcode !in {2, 3}
    ensures r.Ok? ==> (r.value.form == RsRtLabel <==> mnemonic in {"beq", "bne"})
    ensures r.Ok? ==> (r.value.form == RtImm <==> mnemonic == "lui")
    ensures r.Ok? ==> (r.value.form == RtRsImm <==> mnemonic == "ori")
    ensures r.Err? ==> r.error == "Failed to match I-instr mnemonic"
  {
    match mnemonic
    case "ori" => Ok(I(0xd, RtRsImm))
    case "lb" => Ok(I(0x20, RtImmRs))
    case "lbu" => Ok(I(0x24, RtImmRs))
    case "lh" => Ok(I(0x21, RtImmRs))
    case "lhu" => Ok(I(0x25, RtImmRs))
    case "lw" => Ok(I(0x23, RtImmRs))
    case "ll" => Ok(I(0x30, RtImmRs))
    case "lui" => Ok(I(0xf, RtImm))
    case "sb" => Ok(I(0x28, RtImmRs))
    case "sh" => Ok(I(0x29, RtImmRs))
    case "sw" => Ok(I(0x2b, RtImmRs))
    case "sc" => Ok(I(0x38, RtImmRs))
    case "beq" => Ok(I(0x4, RsRtLabel))
    case "bne" => Ok(I(0x5, RsRtLabel))
    case _ => Err("Failed to match I-instr mnemonic")
  }

  /** `j_operation`: the J-type table. */
  function JOperation(mnemonic: string): (r: Result<J, string>)
    ensures !r.Panic?
    ensures r.Ok? <==> mnemonic in JMnemonics
    ensures r.Ok? ==> r.value.opcode in {2, 3}
    ensures r.Err? ==> r.error == "Failed to match J-instr mnemonic"
  {
    match mnemonic
    case "j" => Ok(J(0x2))
    case "jal" => Ok(J(0x3))
    case _ => Err("Failed to match J-instr mnemonic")
  }

  /** No mnemonic is in two tables, so the order in which the assembler tries
      them does not matter. */
  lemma TablesDisjoint(m: string)
    ensures !(ROperation(m).Ok? && IOperation(m).Ok?)
    ensures !(ROperation(m).Ok? && JOperation(m).Ok?)
    ensures !(IOperation(m).Ok? && JOperation(m).Ok?)
  {
  }

  /** Each table entry has its own encoding: two mnemonics of the same table
      with the same fixed fields are the same mnemonic. */
  lemma EncodingsDistinct(m1: string, m2: string)
    ensures ROperation(m1).Ok? && ROperation(m2).Ok? && ROperation(m1).value.funct == ROperation(m2).value.funct ==> m1 == m2
    ensures IOperation(m1).Ok? && IOperation(m2).Ok? && IOperation(m1).value.opcode == IOperation(m2).value.opcode ==> m1 == m2
    ensures JOperation(m1).Ok? && JOperation(m2).Ok? && JOperation(m1).value.opcode == JOperation(m2).value.opcode ==> m1 == m2
  {
    FunctsDistinct(m1, m2);
    IOpcodesDistinct(m1, m2);
  }

  lemma FunctsDistinct(m1: string, m2: string)
    ensures ROperation(m1).Ok? && ROperation(m2).Ok? && ROperation(m1).value.funct == ROperation(m2).value.funct ==> m1 == m2
  {
  }

  lemma IOpcodesDistinct(m1: string, m2: string)
    ensures IOperation(m1).Ok? && IOperation(m2).Ok? && IOperation(m1).value.opcode == IOperation(m2).value.opcode ==> m1 == m2
  {
  }
}
