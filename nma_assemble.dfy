/** The two passes of the syntax-tree-driven assembler (name-as/src/nma.rs,
    `assemble`): pass 1 gives every label the address of the instruction that
    follows it, pass 2 encodes every instruction at its address. The parsed
    program is the input; file reading and writing are left to the caller. */
module NmaAssemble {
  import opened Outcome
  import opened Word
  import opened Registers
  import opened NmaCatalog
  import opened NmaEncode

  /** One statement of the parsed program. */
  datatype Stmt =
    | Label(name: string)
    | Directive(name: string, args: seq<string>)
    | Instruction(mnemonic: string, args: seq<string>)

  /** The line information recorded for each instruction (`LineInfo`); the
      rendered instruction text is kept as its mnemonic and operands. */
  datatype LineInfo = LineInfo(instrAddr: bv32, lineNumber: nat, mnemonic: string, args: seq<string>, pseudoOp: string)

  const TextAddressBase: bv32 := 0x40_0000
  const InstrByteWidth: bv32 := 4

  /** The address after one statement. Pass 1 moves on only past an
      instruction; `onDirective` also moves on past a directive, as pass 2 does. */
  function Step(addr: bv32, s: Stmt, onDirective: bool): bv32 {
    if s.Instruction? || (onDirective && s.Directive?) then addr + InstrByteWidth else addr
  }

  /** The address after a run of statements. */
  function Advance(addr: bv32, stmts: seq<Stmt>, onDirective: bool): bv32
    decreases |stmts|
  {
    if stmts == [] then addr else Advance(Step(addr, stmts[0], onDirective), stmts[1..], onDirective)
  }

  /** The address of the `k`-th word from `addr`, in wrapping `u32` arithmetic. */
  function Nth(addr: bv32, k: nat): bv32 {
    if k == 0 then addr else Nth(addr, k - 1) + InstrByteWidth
  }

  /** How many instructions a run of statements holds. */
  function InstrCount(stmts: seq<Stmt>): (n: nat)
    ensures n <= |stmts|
  {
    if stmts == [] then 0 else (if stmts[0].Instruction? then 1 else 0) + InstrCount(stmts[1..])
  }

  // ---------------------------------------------------------------- pass 1

  /** Pass 1 from `addr` with `labels` declared so far. */
  function LabelsFrom(stmts: seq<Stmt>, addr: bv32, labels: map<string, bv32>): map<string, bv32>
    decreases |stmts|
  {
    if stmts == [] then labels
    else match stmts[0]
      case Label(name) => LabelsFrom(stmts[1..], addr, labels[name := addr])
      case Directive(_, _) => LabelsFrom(stmts[1..], addr, labels)
      case Instruction(_, _) => LabelsFrom(stmts[1..], addr + InstrByteWidth, labels)
  }

  /** The label map of a whole program. */
  function Labels(stmts: seq<Stmt>): map<string, bv32> {
    LabelsFrom(stmts, TextAddressBase, map[])
  }

  /** Pass 1: one walk over the statements, recording each label at the
      current address and moving on by four bytes per instruction. */
  method AssignLabels(stmts: seq<Stmt>) returns (labels: map<string, bv32>)
    ensures labels == Labels(stmts)
  {
    labels := map[];
    var addr := TextAddressBase;
    var i := 0;
    assert stmts[i..] == stmts;
    while i < |stmts|
      invariant 0 <= i <= |stmts|
      invariant Labels(stmts) == LabelsFrom(stmts[i..], addr, labels)
    {
      assert stmts[i..][0] == stmts[i] && stmts[i..][1..] == stmts[i + 1..];
      match stmts[i] {
        case Label(name) =>
          labels := labels[name := addr];
        case Directive(_, _) =>
        case Instruction(_, _) =>
          addr := addr + InstrByteWidth;
      }
      i := i + 1;
    }
  }

  // ---------------------------------------------------------------- pass 2

  /** One instruction, looked up in the R, then the I, then the J table. */
  function EncodeInstruction(mnemonic: string, args: seq<string>, labels: map<string, bv32>, addr: bv32): Result<bv32, string> {
    match ROperation(mnemonic)
    case Ok(op) => AssembleR(op, args)
    case _ =>
      match IOperation(mnemonic)
      case Ok(op) => AssembleI(op, args, labels, addr)
      case _ =>
        match JOperation(mnemonic)
        case Ok(op) => AssembleJ(op, args, labels)
        case _ => Err("Failed to match instruction")
  }

  /** The tables are tried in the order R, I, J, and a mnemonic found in none
      of them is refused. */
  lemma EncodeInstructionMeaning(mnemonic: string, args: seq<string>, labels: map<string, bv32>, addr: bv32)
    ensures mnemonic in RMnemonics ==> EncodeInstruction(mnemonic, args, labels, addr) == AssembleR(ROperation(mnemonic).value, args)
    ensures mnemonic in IMnemonics ==> EncodeInstruction(mnemonic, args, labels, addr) == AssembleI(IOperation(mnemonic).value, args, labels, addr)
    ensures mnemonic in JMnemonics ==> EncodeInstruction(mnemonic, args, labels, addr) == AssembleJ(JOperation(mnemonic).value, args, labels)
    ensures mnemonic !in RMnemonics + IMnemonics + JMnemonics ==>
      EncodeInstruction(mnemonic, args, labels, addr) == Err("Failed to match instruction")
  {
    TablesDisjoint(mnemonic);
  }

  /** The directives pass 2 accepts. */
  predicate KnownDirective(name: string) {
    name == "text" || name == "data" || name == "eqv"
  }

  /** What pass 2 produces: the words written, the line information recorded,
      and how it ended. */
  datatype Pass2Out = Pass2Out(words: seq<bv32>, info: seq<LineInfo>, status: Result<(), string>)

  /** Pass 2 from `addr`; `onDirective` says whether a directive moves the
      address on. */
  function Pass2(stmts: seq<Stmt>, labels: map<string, bv32>, addr: bv32, onDirective: bool): (r: Pass2Out)
    ensures |r.words| <= |r.info|
    ensures r.status.Ok? ==> |r.words| == |r.info| == InstrCount(stmts)
    decreases |stmts|
  {
    if stmts == [] then Pass2Out([], [], Ok(()))
    else match stmts[0]
      case Label(_) => Pass2(stmts[1..], labels, addr, onDirective)
      case Directive(name, _) =>
        if KnownDirective(name) then Pass2(stmts[1..], labels, Step(addr, stmts[0], onDirective), onDirective)
        else Pass2Out([], [], Err("Directive ." + name + " not yet supported"))
      case Instruction(mnemonic, args) =>
        var info := LineInfo(addr, 0, mnemonic, args, "");
        match EncodeInstruction(mnemonic, args, labels, addr)
        case Ok(w) =>
          var rest := Pass2(stmts[1..], labels, addr + InstrByteWidth, onDirective);
          Pass2Out([w] + rest.words, [info] + rest.info, rest.status)
        case Err(e) => Pass2Out([], [info], Err(e))
        case Panic(p) => Pass2Out([], [info], Panic(p))
  }

  /** The bytes written for a run of words, four per word, least significant first. */
  function Serialize(words: seq<bv32>): (b: seq<bv8>)
    ensures |b| == 4 * |words|
  {
    if words == [] then [] else WriteU32(words[0]) + Serialize(words[1..])
  }

  /** What the assembler hands back: the line information when it succeeds,
      the error otherwise. */
  function Returned(p: Pass2Out): Result<seq<LineInfo>, string> {
    match p.status
    case Ok(_) => Ok(p.info)
    case Err(e) => Err(e)
    case Panic(reason) => Panic(reason)
  }

  /** Pass 2 output after some words and line information already produced. */
  function Prefixed(words: seq<bv32>, info: seq<LineInfo>, p: Pass2Out): Pass2Out {
    Pass2Out(words + p.words, info + p.info, p.status)
  }

  /** The assembler: pass 1, then pass 2, which writes each word as soon as it
      is encoded, so the words before a failing statement are already out.
      Pass 2 here moves the address on only past instructions, as pass 1 does
      (see `DirectiveShiftsAddresses` for the code as written). */
  method Assemble(stmts: seq<Stmt>) returns (binary: seq<bv8>, result: Result<seq<LineInfo>, string>)
    ensures var p := Pass2(stmts, Labels(stmts), TextAddressBase, false);
      binary == Serialize(p.words) && result == Returned(p)
  {
    var labels := AssignLabels(stmts);
    var addr := TextAddressBase;
    var lineinfo: seq<LineInfo> := [];
    ghost var words: seq<bv32> := [];
    binary := [];
    var i := 0;
    assert stmts[i..] == stmts;
    while i < |stmts|
      invariant 0 <= i <= |stmts|
      invariant binary == Serialize(words)
      invariant Pass2(stmts, labels, TextAddressBase, false) == Prefixed(words, lineinfo, Pass2(stmts[i..], labels, addr, false))
    {
      ghost var here := stmts[i..];
      assert here[0] == stmts[i] && here[1..] == stmts[i + 1..];
      match stmts[i] {
        case Label(_) =>
          Pass2Skip(here, labels, addr);
        case Directive(name, _) =>
          if !KnownDirective(name) {
            Pass2Stop(here, labels, addr);
            assert words + [] == words;
            return binary, Err("Directive ." + name + " not yet supported");
          }
          Pass2Skip(here, labels, addr);
        case Instruction(mnemonic, args) =>
          var info := LineInfo(addr, 0, mnemonic, args, "");
          var encoded := EncodeInstruction(mnemonic, args, labels, addr);
          if !encoded.Ok? {
            Pass2Stop(here, labels, addr);
            assert words + [] == words;
            return binary, if encoded.Err? then Err(encoded.error) else Panic(encoded.reason);
          }
          var w := encoded.value;
          Pass2Emit(here, labels, addr);
          SerializeSnoc(words, w);
          binary := binary + WriteU32(w);
          ghost var rest := Pass2(stmts[i + 1..], labels, addr + InstrByteWidth, false);
          PrefixedTwice(words, lineinfo, [w], [info], rest);
          words := words + [w];
          lineinfo := lineinfo + [info];
          addr := addr + InstrByteWidth;
      }
      i := i + 1;
    }
    assert words + [] == words && lineinfo + [] == lineinfo;
    result := Ok(lineinfo);
  }

  lemma PrefixedTwice(w1: seq<bv32>, i1: seq<LineInfo>, w2: seq<bv32>, i2: seq<LineInfo>, p: Pass2Out)
    ensures Prefixed(w1, i1, Prefixed(w2, i2, p)) == Prefixed(w1 + w2, i1 + i2, p)
  {
    assert w1 + (w2 + p.words) == (w1 + w2) + p.words;
    assert i1 + (i2 + p.info) == (i1 + i2) + p.info;
  }

  /** A label or an accepted directive leaves the address of pass 2 alone. */
  lemma Pass2Skip(s: seq<Stmt>, labels: map<string, bv32>, addr: bv32)
    requires s != [] && (s[0].Label? || (s[0].Directive? && KnownDirective(s[0].name)))
    ensures Pass2(s, labels, addr, false) == Pass2(s[1..], labels, addr, false)
  {
  }

  /** An encoded instruction is written and recorded, and pass 2 goes on a word later. */
  lemma Pass2Emit(s: seq<Stmt>, labels: map<string, bv32>, addr: bv32)
    requires s != [] && s[0].Instruction?
    requires EncodeInstruction(s[0].mnemonic, s[0].args, labels, addr).Ok?
    ensures Pass2(s, labels, addr, false)
      == Prefixed([EncodeInstruction(s[0].mnemonic, s[0].args, labels, addr).value],
                  [LineInfo(addr, 0, s[0].mnemonic, s[0].args, "")],
                  Pass2(s[1..], labels, addr + InstrByteWidth, false))
  {
  }

  /** An unknown directive or an instruction that fails to encode ends pass 2
      with no further word and with that failure. */
  lemma Pass2Stop(s: seq<Stmt>, labels: map<string, bv32>, addr: bv32)
    requires s != []
    requires (s[0].Directive? && !KnownDirective(s[0].name))
      || (s[0].Instruction? && !EncodeInstruction(s[0].mnemonic, s[0].args, labels, addr).Ok?)
    ensures Pass2(s, labels, addr, false).words == []
    ensures s[0].Directive? ==> Pass2(s, labels, addr, false).info == []
    ensures s[0].Instruction? ==> |Pass2(s, labels, addr, false).info| == 1
    ensures s[0].Directive? ==> Pass2(s, labels, addr, false).status == Err("Directive ." + s[0].name + " not yet supported")
    ensures s[0].Instruction? ==>
      var e := EncodeInstruction(s[0].mnemonic, s[0].args, labels, addr);
      Pass2(s, labels, addr, false).status == (if e.Err? then Err(e.error) else Panic(e.reason))
  {
  }

  lemma {:induction false} SerializeSnoc(words: seq<bv32>, w: bv32)
    ensures Serialize(words + [w]) == Serialize(words) + WriteU32(w)
    decreases |words|
  {
    if words == [] {
      assert [] + [w] == [w];
    } else {
      assert (words + [w])[1..] == words[1..] + [w];
      SerializeSnoc(words[1..], w);
    }
  }

  /** Reading the output back four bytes at a time, least significant first,
      gives the words in order. */
  lemma {:induction false} SerializeReadBack(words: seq<bv32>, k: nat)
    requires k < |words|
    ensures LeWord(Serialize(words)[4 * k..4 * k + 4]) == words[k]
    decreases k
  {
    var b := Serialize(words);
    assert b == WriteU32(words[0]) + Serialize(words[1..]);
    if k == 0 {
      assert b[..4] == WriteU32(words[0]);
    } else {
      SerializeReadBack(words[1..], k - 1);
      assert b[4 * k..4 * k + 4] == Serialize(words[1..])[4 * (k - 1)..4 * (k - 1) + 4];
    }
  }

  // ------------------------------------------------------- addresses

  lemma {:induction false} NthShift(addr: bv32, k: nat)
    ensures Nth(addr + InstrByteWidth, k) == Nth(addr, k + 1)
    decreases k
  {
    if k > 0 {
      NthShift(addr, k - 1);
    }
  }

  /** Pass 1 moves on by one word per instruction and by nothing else. */
  lemma {:induction false} AdvanceCount(addr: bv32, stmts: seq<Stmt>)
    ensures Advance(addr, stmts, false) == Nth(addr, InstrCount(stmts))
    decreases |stmts|
  {
    if stmts != [] {
      AdvanceCount(Step(addr, stmts[0], false), stmts[1..]);
      if stmts[0].Instruction? {
        NthShift(addr, InstrCount(stmts[1..]));
      }
    }
  }

  /** A name never declared as a label keeps what it had in the label map. */
  lemma {:induction false} LabelsFromUndeclared(stmts: seq<Stmt>, addr: bv32, labels: map<string, bv32>, name: string)
    requires Label(name) !in stmts
    ensures name in LabelsFrom(stmts, addr, labels) <==> name in labels
    ensures name in labels ==> LabelsFrom(stmts, addr, labels)[name] == labels[name]
    decreases |stmts|
  {
    if stmts != [] {
      assert stmts[0] != Label(name);
      assert forall s :: s in stmts[1..] ==> s in stmts;
      var next := match stmts[0] case Label(n) => labels[n := addr] case _ => labels;
      LabelsFromUndeclared(stmts[1..], Step(addr, stmts[0], false), next, name);
    }
  }

  /** A declared label is mapped to the address reached just before its last
      declaration. */
  lemma {:induction false} LabelsFromDeclared(stmts: seq<Stmt>, addr: bv32, labels: map<string, bv32>, name: string, i: nat)
    requires i < |stmts| && stmts[i] == Label(name) && Label(name) !in stmts[i + 1..]
    ensures name in LabelsFrom(stmts, addr, labels)
    ensures LabelsFrom(stmts, addr, labels)[name] == Advance(addr, stmts[..i], false)
    decreases |stmts|
  {
    var next := match stmts[0] case Label(n) => labels[n := addr] case _ => labels;
    var addr' := Step(addr, stmts[0], false);
    assert LabelsFrom(stmts, addr, labels) == LabelsFrom(stmts[1..], addr', next);
    if i == 0 {
      assert stmts[1..] == stmts[i + 1..];
      LabelsFromUndeclared(stmts[1..], addr', next, name);
      assert stmts[..i] == [];
    } else {
      assert stmts[1..][i - 1] == stmts[i] && stmts[1..][i..] == stmts[i + 1..];
      LabelsFromDeclared(stmts[1..], addr', next, name, i - 1);
      assert stmts[..i][0] == stmts[0] && stmts[..i][1..] == stmts[1..][..i - 1];
    }
  }

  /** A label is bound to the address of the instruction that follows its last
      declaration: the one preceded by as many instructions as precede the label. */
  lemma LabelAddress(stmts: seq<Stmt>, i: nat, name: string)
    requires i < |stmts| && stmts[i] == Label(name) && Label(name) !in stmts[i + 1..]
    ensures name in Labels(stmts)
    ensures Labels(stmts)[name] == Nth(TextAddressBase, InstrCount(stmts[..i]))
  {
    LabelsFromDeclared(stmts, TextAddressBase, map[], name, i);
    AdvanceCount(TextAddressBase, stmts[..i]);
  }

  /** Only declared labels are bound. */
  lemma UndeclaredLabel(stmts: seq<Stmt>, name: string)
    requires Label(name) !in stmts
    ensures name !in Labels(stmts)
  {
    LabelsFromUndeclared(stmts, TextAddressBase, map[], name);
  }

  /** The first instruction pass 2 records is at the address it starts from. */
  lemma Pass2First(s: seq<Stmt>, labels: map<string, bv32>, addr: bv32)
    requires s != [] && s[0].Instruction?
    ensures |Pass2(s, labels, addr, false).info| > 0
    ensures Pass2(s, labels, addr, false).info[0].instrAddr == addr
  {
  }

  /** Pass 2 places the `k`-th instruction `k` words after the start. */
  lemma {:induction false} Pass2Addresses(stmts: seq<Stmt>, labels: map<string, bv32>, addr: bv32, k: nat)
    requires k < |Pass2(stmts, labels, addr, false).info|
    ensures Pass2(stmts, labels, addr, false).info[k].instrAddr == Nth(addr, k)
    decreases |stmts|, 1
  {
    assert stmts != [];
    var s0 := stmts[0];
    if s0.Instruction? && k == 0 {
      Pass2First(stmts, labels, addr);
    } else if s0.Label? || (s0.Directive? && KnownDirective(s0.name)) {
      Pass2Skip(stmts, labels, addr);
      Pass2Addresses(stmts[1..], labels, addr, k);
    } else if s0.Instruction? && EncodeInstruction(s0.mnemonic, s0.args, labels, addr).Ok? {
      Pass2AddressesEmit(stmts, labels, addr, k);
    } else {
      Pass2Stop(stmts, labels, addr);
      assert false;
    }
  }

  /** `Pass2Addresses` past an instruction that encodes. */
  lemma {:induction false} Pass2AddressesEmit(stmts: seq<Stmt>, labels: map<string, bv32>, addr: bv32, k: nat)
    requires stmts != [] && stmts[0].Instruction?
    requires EncodeInstruction(stmts[0].mnemonic, stmts[0].args, labels, addr).Ok?
    requires 0 < k < |Pass2(stmts, labels, addr, false).info|
    ensures Pass2(stmts, labels, addr, false).info[k].instrAddr == Nth(addr, k)
    decreases |stmts|, 0
  {
    var rest := Pass2(stmts[1..], labels, addr + InstrByteWidth, false);
    var word := EncodeInstruction(stmts[0].mnemonic, stmts[0].args, labels, addr).value;
    var line := LineInfo(addr, 0, stmts[0].mnemonic, stmts[0].args, "");
    Pass2Emit(stmts, labels, addr);
    PrefixedInfo([word], [line], rest, k);
    Pass2Addresses(stmts[1..], labels, addr + InstrByteWidth, k - 1);
    NthShift(addr, k - 1);
  }

  /** The line records after a prefix are those of the rest, shifted. */
  lemma PrefixedInfo(words: seq<bv32>, info: seq<LineInfo>, p: Pass2Out, k: nat)
    requires |info| <= k < |info| + |p.info|
    ensures Prefixed(words, info, p).info[k] == p.info[k - |info|]
  {
  }

  /** The two passes agree: the address pass 1 gives a label is the address
      pass 2 gives the instruction after it. */
  lemma LabelsMatchPass2(stmts: seq<Stmt>, i: nat, name: string)
    requires i < |stmts| && stmts[i] == Label(name) && Label(name) !in stmts[i + 1..]
    requires InstrCount(stmts[..i]) < |Pass2(stmts, Labels(stmts), TextAddressBase, false).info|
    ensures name in Labels(stmts)
    ensures Labels(stmts)[name] == Pass2(stmts, Labels(stmts), TextAddressBase, false).info[InstrCount(stmts[..i])].instrAddr
  {
    LabelAddress(stmts, i, name);
    Pass2Addresses(stmts, Labels(stmts), TextAddressBase, InstrCount(stmts[..i]));
  }

  /** A directive other than `.text`, `.data` and `.eqv` stops pass 2 with an
      error, keeping the words of the statements before it. */
  lemma {:induction false} UnknownDirective(stmts: seq<Stmt>, labels: map<string, bv32>, addr: bv32, onDirective: bool, name: string, args: seq<string>)
    requires !KnownDirective(name)
    requires Pass2(stmts, labels, addr, onDirective).status.Ok?
    ensures Pass2(stmts + [Directive(name, args)], labels, addr, onDirective).status == Err("Directive ." + name + " not yet supported")
    ensures Pass2(stmts + [Directive(name, args)], labels, addr, onDirective).words == Pass2(stmts, labels, addr, onDirective).words
    decreases |stmts|
  {
    var all := stmts + [Directive(name, args)];
    if stmts == [] {
      assert all == [Directive(name, args)];
    } else {
      assert all[0] == stmts[0] && all[1..] == stmts[1..] + [Directive(name, args)];
      match stmts[0]
      case Label(_) =>
        UnknownDirective(stmts[1..], labels, addr, onDirective, name, args);
      case Directive(_, _) =>
        UnknownDirective(stmts[1..], labels, Step(addr, stmts[0], onDirective), onDirective, name, args);
      case Instruction(_, _) =>
        UnknownDirective(stmts[1..], labels, addr + InstrByteWidth, onDirective, name, args);
    }
  }

  // ------------------------------------------- pass 2 as written

  /** A branch to itself placed after a `.text` directive. */
  function SelfBranchAfterText(): seq<Stmt> {
    [Directive("text", []), Label("L"), Instruction("beq", ["$t0", "$t0", "L"])]
  }

  /** As written, pass 2 moves the address on past a directive while pass 1
      does not, so after `.text` the branch is placed a word after the address
      of its own label and encodes the offset -4 instead of 0; moving on only
      past instructions encodes 0. */
  lemma DirectiveShiftsAddresses()
    ensures Labels(SelfBranchAfterText()) == map["L" := TextAddressBase]
    ensures var p := Pass2(SelfBranchAfterText(), Labels(SelfBranchAfterText()), TextAddressBase, true);
      p.status.Ok? && |p.words| == 1 && p.info[0].instrAddr == TextAddressBase + 4 && Imm(p.words[0]) == 0xFFFC
    ensures var p := Pass2(SelfBranchAfterText(), Labels(SelfBranchAfterText()), TextAddressBase, false);
      p.status.Ok? && |p.words| == 1 && p.info[0].instrAddr == TextAddressBase && Imm(p.words[0]) == 0
  {
    SelfBranchLabels();
    SelfBranchAsWritten();
    SelfBranchIntended();
  }

  /** Pass 1 binds the label to the base address: the directive takes no room. */
  lemma SelfBranchLabels()
    ensures Labels(SelfBranchAfterText()) == map["L" := TextAddressBase]
  {
    var prog := SelfBranchAfterText();
    assert prog[1..][1..] == [prog[2]] && prog[1..][1..][1..] == [];
  }

  /** As written, pass 2 encodes the branch one word past the label. */
  lemma SelfBranchAsWritten()
    ensures var p := Pass2(SelfBranchAfterText(), map["L" := TextAddressBase], TextAddressBase, true);
      p.status.Ok? && |p.words| == 1 && p.info[0].instrAddr == TextAddressBase + 4 && Imm(p.words[0]) == 0xFFFC
  {
    var prog := SelfBranchAfterText();
    assert prog[1..][1..] == [prog[2]] && prog[1..][1..][1..] == [];
    SelfBranchWord(TextAddressBase + 4);
  }

  /** The self-branch placed at `addr` encodes the label's address minus `addr`. */
  lemma SelfBranchWord(addr: bv32)
    ensures var e := EncodeInstruction("beq", ["$t0", "$t0", "L"], map["L" := TextAddressBase], addr);
      e.Ok? && Imm(e.value) as bv32 == (TextAddressBase - addr) & 0xFFFF
  {
    Tokens();
    EncodeInstructionMeaning("beq", ["$t0", "$t0", "L"], map["L" := TextAddressBase], addr);
  }

  /** With the intended pass 2, the branch sits at the label itself. */
  lemma SelfBranchIntended()
    ensures var p := Pass2(SelfBranchAfterText(), map["L" := TextAddressBase], TextAddressBase, false);
      p.status.Ok? && |p.words| == 1 && p.info[0].instrAddr == TextAddressBase && Imm(p.words[0]) == 0
  {
    var prog := SelfBranchAfterText();
    assert prog[1..][1..] == [prog[2]] && prog[1..][1..][1..] == [];
    SelfBranchWord(TextAddressBase);
  }
}
