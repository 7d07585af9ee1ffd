/** The earlier, token-driven assembler (src/nma.rs): the source text is cut
    into tokens, and a small state machine takes them from the front, collects
    an instruction's operands and writes each encoded word most significant
    byte first. */
module TokenAsm {
  import opened Outcome
  import opened Text
  import opened RustNum
  import opened Word
  import opened Registers
  import NmaCatalog
  import NmaEncode

  /** `mask`: the low `x` bits of `n`. */
  function Mask(n: bv8, x: bv8): (r: bv8)
    requires x < 8
    ensures r < 1 << x
    ensures n < 1 << x ==> r == n
    ensures ((n - r) >> x) << x == n - r
  {
    n & ((1 << x) - 1)
  }

  /** Masking twice is masking once. */
  lemma MaskIdempotent(n: bv8, x: bv8)
    requires x < 8
    ensures Mask(Mask(n, x), x) == Mask(n, x)
  {
  }

  const RExpectedArgs: nat := 3
  const IExpectedArgs: nat := 2

  /** Which operands an R-type instruction takes; `NoRForm` is the placeholder
      before any instruction was seen. */
  datatype RForm = NoRForm | RdRsRt | RdRtShamt

  datatype R = R(shamt: bv8, funct: bv8, form: RForm)

  datatype IForm = NoIForm | RtImm

  datatype I = I(opcode: bv8, form: IForm)

  const RMnemonics: set<string> := {"add", "sub", "sll", "srl", "xor"}

  /** `r_operation`. */
  function ROperation(mnemonic: string): (r: Result<R, string>)
    ensures r.Ok? <==> mnemonic in RMnemonics
    ensures r.Ok? ==> r.value.shamt == 0 && r.value.funct < 64 && r.value.form != NoRForm
    ensures r.Ok? ==> (r.value.form == RdRtShamt <==> mnemonic in {"sll", "srl"})
    ensures !r.Ok? ==> r == Err("Failed to match R-instr mnemonic")
  {
    match mnemonic
    case "add" => Ok(R(0, 0x20, RdRsRt))
    case "sub" => Ok(R(0, 0x22, RdRsRt))
    case "sll" => Ok(R(0, 0x00, RdRtShamt))
    case "srl" => Ok(R(0, 0x02, RdRtShamt))
    case "xor" => Ok(R(0, 0x26, RdRsRt))
    case _ => Err("Failed to match R-instr mnemonic")
  }

  /** `i_operation`: only `lui`. */
  function IOperation(mnemonic: string): (r: Result<I, string>)
    ensures r.Ok? <==> mnemonic == "lui"
    ensures r.Ok? ==> r.value.opcode < 64 && r.value.form == RtImm
    ensures !r.Ok? ==> r == Err("Failed to match I-instr mnemonic")
  {
    match mnemonic
    case "lui" => Ok(I(0xf, RtImm))
    case _ => Err("Failed to match I-instr mnemonic")
  }

  /** The tables agree with those of the syntax-tree-driven assembler on every
      mnemonic both know. */
  lemma TablesAgree(m: string)
    ensures ROperation(m).Ok? ==>
      && NmaCatalog.ROperation(m).Ok?
      && NmaCatalog.ROperation(m).value.funct == ROperation(m).value.funct
      && (NmaCatalog.ROperation(m).value.form == NmaCatalog.RdRsRt <==> ROperation(m).value.form == RdRsRt)
    ensures IOperation(m).Ok? ==>
      && NmaCatalog.IOperation(m).Ok?
      && NmaCatalog.IOperation(m).value.opcode == IOperation(m).value.opcode
      && NmaCatalog.IOperation(m).value.form == NmaCatalog.RtImm
  {
  }

  const Separators: set<char> := {',', ' ', '\t', '\r', '\n'}

  /** `tokenize`: the non-empty pieces between commas and white space. */
  function Tokenize(text: string): (tokens: seq<string>)
    ensures forall k :: 0 <= k < |tokens| ==> tokens[k] != [] && SeparatorFree(tokens[k], Separators)
  {
    Fields(text, Separators)
  }

  /** Tokens written with single spaces between them come back unchanged, and
      nothing but the separators is lost. */
  lemma TokenizeRoundTrip(tokens: seq<string>, text: string)
    requires forall k :: 0 <= k < |tokens| ==> tokens[k] != [] && SeparatorFree(tokens[k], Separators)
    ensures Tokenize(Join(tokens, " ")) == tokens
    ensures Concat(Tokenize(text)) == Kept(text, Separators)
  {
    FieldsOfJoin(tokens, ' ', Separators);
    FieldsKeepContent(text, Separators);
  }

  /** The big-endian reading of four bytes. */
  function BeWord(b: seq<bv8>): bv32
    requires |b| == 4
  {
    ((b[0] as bv32) << 24) | ((b[1] as bv32) << 16) | ((b[2] as bv32) << 8) | (b[3] as bv32)
  }

  /** `write_u32`: the bytes of a word, most significant first. */
  function WriteU32(w: bv32): (b: seq<bv8>)
    ensures |b| == 4 && BeWord(b) == w
  {
    var b := BeBytes(w);
    assert b[0] as bv32 == w >> 24;
    assert b[1] as bv32 == (w >> 16) & 0xFF;
    assert b[2] as bv32 == (w >> 8) & 0xFF;
    assert b[3] as bv32 == w & 0xFF;
    b
  }

  /** The two assemblers write the same word in opposite byte orders. */
  lemma ByteOrdersDiffer(w: bv32)
    ensures var be, le := WriteU32(w), NmaEncode.WriteU32(w);
      be[0] == le[3] && be[1] == le[2] && be[2] == le[1] && be[3] == le[0]
  {
  }

  /** `assemble_r` on the mnemonic and its three operands. The shift amount is
      read as a decimal `u8` and silently cut to five bits. */
  function AssembleR(r: R, args: seq<string>): (res: Result<bv32, string>)
    requires |args| == 1 + RExpectedArgs
    ensures r.form == NoRForm ==> res == Err("Unexpected R_form")
    ensures r.form == RdRsRt ==>
      (res.Ok? <==> AssembleReg(args[1]).Ok? && AssembleReg(args[2]).Ok? && AssembleReg(args[3]).Ok?)
    ensures r.form == RdRsRt && res.Ok? ==>
      Rd(res.value) == AssembleReg(args[1]).value as bv32 && Rs(res.value) == AssembleReg(args[2]).value as bv32
      && Rt(res.value) == AssembleReg(args[3]).value as bv32 && Shamt(res.value) == (r.shamt & 0x1F) as bv32
    ensures r.form == RdRtShamt ==>
      (res.Ok? <==> AssembleReg(args[1]).Ok? && AssembleReg(args[2]).Ok? && FromStrRadix(args[3], 10, U8Max).Some?)
    ensures r.form == RdRtShamt && res.Ok? ==>
      Rd(res.value) == AssembleReg(args[1]).value as bv32 && Rs(res.value) == 0
      && Rt(res.value) == AssembleReg(args[2]).value as bv32
      && Shamt(res.value) == ((FromStrRadix(args[3], 10, U8Max).value as bv8) & 0x1F) as bv32
    ensures res.Ok? ==> Opcode(res.value) == 0 && Funct(res.value) == (r.funct & 0x3F) as bv32
  {
    var (rs, rt, rd, shamt) :- RFields(r, args);
    Ok(MaskedR(rs, rt, rd, shamt, r.funct))
  }

  /** The operands of `assemble_r` resolved for the entry's form, as
      `(rs, rt, rd, shamt)` before masking. */
  function RFields(r: R, args: seq<string>): (res: Result<(bv8, bv8, bv8, bv8), string>)
    requires |args| == 1 + RExpectedArgs
    ensures r.form == NoRForm ==> res == Err("Unexpected R_form")
    ensures r.form == RdRsRt ==>
      (res.Ok? <==> AssembleReg(args[1]).Ok? && AssembleReg(args[2]).Ok? && AssembleReg(args[3]).Ok?)
    ensures r.form == RdRsRt && res.Ok? ==>
      res.value == (AssembleReg(args[2]).value, AssembleReg(args[3]).value, AssembleReg(args[1]).value, r.shamt)
    ensures r.form == RdRtShamt ==>
      (res.Ok? <==> AssembleReg(args[1]).Ok? && AssembleReg(args[2]).Ok? && FromStrRadix(args[3], 10, U8Max).Some?)
    ensures r.form == RdRtShamt && res.Ok? ==>
      res.value == (0, AssembleReg(args[2]).value, AssembleReg(args[1]).value, FromStrRadix(args[3], 10, U8Max).value as bv8)
  {
    match r.form
    case RdRsRt =>
      var rd :- AssembleReg(args[1]);
      var rs :- AssembleReg(args[2]);
      var rt :- AssembleReg(args[3]);
      Ok((rs, rt, rd, r.shamt))
    case RdRtShamt =>
      var rd :- AssembleReg(args[1]);
      var rt :- AssembleReg(args[2]);
      (match FromStrRadix(args[3], 10, U8Max)
       case Some(v) => Ok((0, rt, rd, v as bv8))
       case None => Err("Failed to parse shamt"))
    case NoRForm => Err("Unexpected R_form")
  }

  /** The masking and packing step of `assemble_r`: each register-sized field
      cut to five bits and the funct to six, then packed with opcode 0. */
  function MaskedR(rs: bv8, rt: bv8, rd: bv8, shamt: bv8, funct: bv8): (w: bv32)
    ensures Opcode(w) == 0 && Funct(w) == (funct & 0x3F) as bv32
    ensures Rs(w) == (rs & 0x1F) as bv32 && Rt(w) == (rt & 0x1F) as bv32
    ensures Rd(w) == (rd & 0x1F) as bv32 && Shamt(w) == (shamt & 0x1F) as bv32
  {
    PackR(Mask(rs, 5) as bv32, Mask(rt, 5) as bv32, Mask(rd, 5) as bv32, Mask(shamt, 5) as bv32, Mask(funct, 6) as bv32)
  }

  /** `assemble_i` on the mnemonic and its two operands; the immediate is read
      as a decimal `u16`. */
  function AssembleI(i: I, args: seq<string>): (res: Result<bv32, string>)
    requires |args| == 1 + IExpectedArgs
    ensures i.form == NoIForm ==> res == Err("Unexpected I_form")
    ensures i.form == RtImm ==>
      (res.Ok? <==> AssembleReg(args[1]).Ok? && FromStrRadix(args[2], 10, U16Max).Some?)
    ensures res.Ok? ==>
      Opcode(res.value) == (i.opcode & 0x3F) as bv32 && Rs(res.value) == 0
      && Rt(res.value) == AssembleReg(args[1]).value as bv32
      && Imm(res.value) == FromStrRadix(args[2], 10, U16Max).value as bv32
  {
    match i.form
    case NoIForm => Err("Unexpected I_form")
    case RtImm =>
      var rt :- AssembleReg(args[1]);
      match FromStrRadix(args[2], 10, U16Max)
      case None => Err("Failed to parse imm")
      case Some(v) =>
        HalfWordBound(v);
        Ok(PackI(Mask(i.opcode, 6) as bv32, Mask(0, 5) as bv32, Mask(rt, 5) as bv32, v as bv32))
  }

  // ------------------------------------------------------------ the state machine

  /** `AssemblerState`. */
  datatype AsmState = Initial | Scanning | CollectingRArguments | CollectingIArguments

  /** The assembler's variables between two tokens: the state, the instruction
      being collected with its operands so far, and the bytes written. */
  datatype Machine = Machine(state: AsmState, r: R, rArgs: seq<string>, i: I, iArgs: seq<string>, out: seq<bv8>)

  /** The variables before the first token. */
  function Start(): Machine {
    Machine(Initial, R(0, 0, NoRForm), [], I(0, NoIForm), [], [])
  }

  /** An operand with one trailing comma removed. */
  function StripComma(token: string): (r: string)
    ensures token != [] && token[|token| - 1] == ',' ==> r == token[..|token| - 1]
    ensures (token == [] || token[|token| - 1] != ',') ==> r == token
  {
    if token != [] && token[|token| - 1] == ',' then token[..|token| - 1] else token
  }

  /** The first half of an iteration: the token read in the current state. */
  function Scan(m: Machine, token: string): Result<Machine, string> {
    match m.state
    case Initial =>
      if token == "main:" then Ok(m.(state := Scanning)) else Err("Code must begin with 'main' label")
    case Scanning =>
      (match ROperation(token)
       case Ok(r) => Ok(m.(state := CollectingRArguments, r := r, rArgs := [token]))
       case _ =>
         match IOperation(token)
         case Ok(i) => Ok(m.(state := CollectingIArguments, i := i, iArgs := [token]))
         case _ => Ok(m))
    case CollectingRArguments => Ok(m.(rArgs := m.rArgs + [StripComma(token)]))
    case CollectingIArguments => Ok(m.(iArgs := m.iArgs + [StripComma(token)]))
  }

  /** The second half: an instruction whose operands are all in is encoded and
      written, and scanning resumes. */
  function Flush(m: Machine): Result<Machine, string> {
    match m.state
    case CollectingRArguments =>
      if |m.rArgs| == 1 + RExpectedArgs then
        var w :- AssembleR(m.r, m.rArgs);
        Ok(m.(state := Scanning, out := m.out + WriteU32(w)))
      else Ok(m)
    case CollectingIArguments =>
      if |m.iArgs| == 1 + IExpectedArgs then
        var w :- AssembleI(m.i, m.iArgs);
        Ok(m.(state := Scanning, out := m.out + WriteU32(w)))
      else Ok(m)
    case _ => Ok(m)
  }

  /** One iteration of the loop. */
  function Feed(m: Machine, token: string): Result<Machine, string> {
    var scanned :- Scan(m, token);
    Flush(scanned)
  }

  /** What the assembler leaves behind: the bytes written and how it ended. */
  datatype Run = Run(out: seq<bv8>, status: Result<(), string>)

  /** The loop over the remaining tokens. On an error the bytes already written stay. */
  function RunFrom(m: Machine, tokens: seq<string>): Run
    decreases |tokens|
  {
    if tokens == [] then Run(m.out, Ok(()))
    else match Feed(m, tokens[0])
      case Ok(next) => RunFrom(next, tokens[1..])
      case Err(e) => Run(m.out, Err(e))
      case Panic(reason) => Run(m.out, Panic(reason))
  }

  /** `assemble` without the file handling: the tokens of `text` are taken
      from the front one at a time, and each complete instruction is written
      as soon as its last operand arrives. */
  method Assemble(text: string) returns (output: seq<bv8>, status: Result<(), string>)
    ensures Run(output, status) == RunFrom(Start(), Tokenize(text))
  {
    var tokens := Tokenize(text);
    var state := Initial;
    var rStruct := R(0, 0, NoRForm);
    var rArgs: seq<string> := [];
    var iStruct := I(0, NoIForm);
    var iArgs: seq<string> := [];
    output := [];
    while tokens != []
      invariant RunFrom(Start(), Tokenize(text)) == RunFrom(Machine(state, rStruct, rArgs, iStruct, iArgs, output), tokens)
      decreases |tokens|
    {
      ghost var before := Machine(state, rStruct, rArgs, iStruct, iArgs, output);
      var token := tokens[0];
      tokens := tokens[1..];
      match state {
        case Initial =>
          if token == "main:" {
            state := Scanning;
          } else {
            return output, Err("Code must begin with 'main' label");
          }
        case Scanning =>
          var r := ROperation(token);
          if r.Ok? {
            state := CollectingRArguments;
            rStruct := r.value;
            rArgs := [token];
          } else {
            var i := IOperation(token);
            if i.Ok? {
              state := CollectingIArguments;
              iStruct := i.value;
              iArgs := [token];
            }
          }
        case CollectingRArguments =>
          rArgs := rArgs + [StripComma(token)];
        case CollectingIArguments =>
          iArgs := iArgs + [StripComma(token)];
      }
      assert Scan(before, token) == Ok(Machine(state, rStruct, rArgs, iStruct, iArgs, output));
      if state == CollectingRArguments && |rArgs| == 1 + RExpectedArgs {
        var assembled := AssembleR(rStruct, rArgs);
        if !assembled.Ok? {
          return output, if assembled.Err? then Err(assembled.error) else Panic(assembled.reason);
        }
        output := output + WriteU32(assembled.value);
        state := Scanning;
      } else if state == CollectingIArguments && |iArgs| == 1 + IExpectedArgs {
        var assembled := AssembleI(iStruct, iArgs);
        if !assembled.Ok? {
          return output, if assembled.Err? then Err(assembled.error) else Panic(assembled.reason);
        }
        output := output + WriteU32(assembled.value);
        state := Scanning;
      }
    }
    status := Ok(());
  }

  // ------------------------------------------------------------ properties of the loop

  /** What holds between iterations: whole words written, and an instruction
      being collected is one of the table's, with fewer operands than it needs. */
  predicate Valid(m: Machine) {
    && |m.out| % 4 == 0
    && (m.state == CollectingRArguments ==>
         1 <= |m.rArgs| <= RExpectedArgs && ROperation(m.rArgs[0]) == Ok(m.r))
    && (m.state == CollectingIArguments ==>
         1 <= |m.iArgs| <= IExpectedArgs && IOperation(m.iArgs[0]) == Ok(m.i))
  }

  /** `Valid`, except that the operands may be complete. */
  predicate Collected(m: Machine) {
    && |m.out| % 4 == 0
    && (m.state == CollectingRArguments ==>
         1 <= |m.rArgs| <= 1 + RExpectedArgs && ROperation(m.rArgs[0]) == Ok(m.r))
    && (m.state == CollectingIArguments ==>
         1 <= |m.iArgs| <= 1 + IExpectedArgs && IOperation(m.iArgs[0]) == Ok(m.i))
  }

  lemma ScanCollected(m: Machine, token: string)
    requires Valid(m) && Scan(m, token).Ok?
    ensures Collected(Scan(m, token).value) && Scan(m, token).value.out == m.out
  {
  }

  lemma FlushValid(m: Machine)
    requires Collected(m)
    ensures Flush(m).Ok? ==> Valid(Flush(m).value) && m.out <= Flush(m).value.out
  {
    match m.state
    case CollectingRArguments =>
      if |m.rArgs| == 1 + RExpectedArgs && AssembleR(m.r, m.rArgs).Ok? {
        AppendWord(m.out, AssembleR(m.r, m.rArgs).value);
      }
    case CollectingIArguments =>
      if |m.iArgs| == 1 + IExpectedArgs && AssembleI(m.i, m.iArgs).Ok? {
        AppendWord(m.out, AssembleI(m.i, m.iArgs).value);
      }
    case _ =>
  }

  /** Writing a word keeps the output whole words and extends it. */
  lemma AppendWord(out: seq<bv8>, w: bv32)
    requires |out| % 4 == 0
    ensures |out + WriteU32(w)| % 4 == 0 && out <= out + WriteU32(w)
  {
  }

  /** One iteration keeps `Valid` and only appends to the output. */
  lemma FeedValid(m: Machine, token: string)
    requires Valid(m)
    ensures Feed(m, token).Ok? ==> Valid(Feed(m, token).value) && m.out <= Feed(m, token).value.out
  {
    if Scan(m, token).Ok? {
      ScanCollected(m, token);
      FlushValid(Scan(m, token).value);
    }
  }

  /** The assembler writes whole words only and never takes back what it wrote. */
  lemma {:induction false} RunValid(m: Machine, tokens: seq<string>)
    requires Valid(m)
    ensures |RunFrom(m, tokens).out| % 4 == 0 && m.out <= RunFrom(m, tokens).out
    decreases |tokens|
  {
    if tokens != [] {
      FeedValid(m, tokens[0]);
      if Feed(m, tokens[0]).Ok? {
        RunValid(Feed(m, tokens[0]).value, tokens[1..]);
      }
    }
  }

  /** The output of a whole run is a sequence of words. */
  lemma OutputWords(text: string)
    ensures |RunFrom(Start(), Tokenize(text)).out| % 4 == 0
  {
    RunValid(Start(), Tokenize(text));
  }

  /** A program must open with the token `main:`; an empty one is accepted and
      writes nothing. */
  lemma MainRequired(tokens: seq<string>)
    ensures tokens == [] ==> RunFrom(Start(), tokens) == Run([], Ok(()))
    ensures tokens != [] && tokens[0] != "main:" ==>
      RunFrom(Start(), tokens) == Run([], Err("Code must begin with 'main' label"))
  {
  }

  /** While scanning, a token that is no known mnemonic is skipped silently. */
  lemma SkipUnknown(m: Machine, token: string, rest: seq<string>)
    requires m.state == Scanning && token !in RMnemonics && token != "lui"
    ensures RunFrom(m, [token] + rest) == RunFrom(m, rest)
  {
    assert ([token] + rest)[1..] == rest;
  }

  /** An instruction cut short by the end of the input is dropped without an error. */
  lemma {:induction false} IncompleteTail(m: Machine, mnemonic: string, args: seq<string>)
    requires m.state == Scanning
    requires (mnemonic in RMnemonics && |args| < RExpectedArgs) || (mnemonic == "lui" && |args| < IExpectedArgs)
    ensures RunFrom(m, [mnemonic] + args) == Run(m.out, Ok(()))
  {
    var next := Feed(m, mnemonic).value;
    assert ([mnemonic] + args)[1..] == args;
    CollectQuietly(next, args);
  }

  lemma {:induction false} CollectQuietly(m: Machine, args: seq<string>)
    requires (m.state == CollectingRArguments && |m.rArgs| + |args| <= RExpectedArgs)
      || (m.state == CollectingIArguments && |m.iArgs| + |args| <= IExpectedArgs)
    ensures RunFrom(m, args) == Run(m.out, Ok(()))
    decreases |args|
  {
    if args != [] {
      CollectQuietly(Feed(m, args[0]).value, args[1..]);
    }
  }

  /** An R-type mnemonic followed by three operands writes the word
      `assemble_r` gives for them and resumes scanning, or stops with its error. */
  lemma CompleteR(m: Machine, mnemonic: string, a: string, b: string, c: string, rest: seq<string>)
    requires m.state == Scanning && mnemonic in RMnemonics
    requires ',' !in a && ',' !in b && ',' !in c
    ensures var e := AssembleR(ROperation(mnemonic).value, [mnemonic, a, b, c]);
      e.Ok? ==>
        RunFrom(m, [mnemonic, a, b, c] + rest)
        == RunFrom(m.(state := Scanning, r := ROperation(mnemonic).value, rArgs := [mnemonic, a, b, c],
                      out := m.out + WriteU32(e.value)), rest)
    ensures var e := AssembleR(ROperation(mnemonic).value, [mnemonic, a, b, c]);
      e.Err? ==> RunFrom(m, [mnemonic, a, b, c] + rest) == Run(m.out, Err(e.error))
    ensures var e := AssembleR(ROperation(mnemonic).value, [mnemonic, a, b, c]);
      e.Panic? ==> RunFrom(m, [mnemonic, a, b, c] + rest) == Run(m.out, Panic(e.reason))
  {
    var all := [mnemonic, a, b, c] + rest;
    var r := ROperation(mnemonic).value;
    var m1 := m.(state := CollectingRArguments, r := r, rArgs := [mnemonic]);
    var m2 := m1.(rArgs := [mnemonic, a]);
    var m3 := m1.(rArgs := [mnemonic, a, b]);
    var m4 := m1.(rArgs := [mnemonic, a, b, c]);
    assert StripComma(a) == a && StripComma(b) == b && StripComma(c) == c;
    assert Feed(m, mnemonic) == Ok(m1);
    assert [mnemonic] + [a] == [mnemonic, a] && [mnemonic, a] + [b] == [mnemonic, a, b];
    assert [mnemonic, a, b] + [c] == [mnemonic, a, b, c];
    assert Scan(m1, a) == Ok(m2) && Flush(m2) == Ok(m2);
    assert Scan(m2, b) == Ok(m3) && Flush(m3) == Ok(m3);
    assert Scan(m3, c) == Ok(m4);
    assert all[1..] == [a, b, c] + rest && all[2..] == [b, c] + rest && all[3..] == [c] + rest && all[4..] == rest;
    assert RunFrom(m, all) == RunFrom(m1, all[1..]);
    assert RunFrom(m1, all[1..]) == RunFrom(m2, all[2..]);
    assert RunFrom(m2, all[2..]) == RunFrom(m3, all[3..]);
  }

  /** `lui` followed by two operands writes the word `assemble_i` gives for
      them and resumes scanning, or stops with its error. */
  lemma CompleteI(m: Machine, a: string, b: string, rest: seq<string>)
    requires m.state == Scanning
    requires ',' !in a && ',' !in b
    ensures var e := AssembleI(IOperation("lui").value, ["lui", a, b]);
      e.Ok? ==>
        RunFrom(m, ["lui", a, b] + rest)
        == RunFrom(m.(state := Scanning, i := IOperation("lui").value, iArgs := ["lui", a, b],
                      out := m.out + WriteU32(e.value)), rest)
    ensures var e := AssembleI(IOperation("lui").value, ["lui", a, b]);
      e.Err? ==> RunFrom(m, ["lui", a, b] + rest) == Run(m.out, Err(e.error))
    ensures var e := AssembleI(IOperation("lui").value, ["lui", a, b]);
      e.Panic? ==> RunFrom(m, ["lui", a, b] + rest) == Run(m.out, Panic(e.reason))
  {
    var all := ["lui", a, b] + rest;
    var i := IOperation("lui").value;
    var m1 := m.(state := CollectingIArguments, i := i, iArgs := ["lui"]);
    var m2 := m1.(iArgs := ["lui", a]);
    var m3 := m1.(iArgs := ["lui", a, b]);
    assert StripComma(a) == a && StripComma(b) == b;
    assert "lui" !in RMnemonics;
    assert Feed(m, "lui") == Ok(m1);
    assert ["lui"] + [a] == ["lui", a] && ["lui", a] + [b] == ["lui", a, b];
    assert Scan(m1, a) == Ok(m2) && Flush(m2) == Ok(m2);
    assert Scan(m2, b) == Ok(m3);
    assert all[1..] == [a, b] + rest && all[2..] == [b] + rest && all[3..] == rest;
    assert RunFrom(m, all) == RunFrom(m1, all[1..]);
    assert RunFrom(m1, all[1..]) == RunFrom(m2, all[2..]);
  }

  /** `main: add $t0 $zero $zero` assembles to `0x00004020`, written most
      significant byte first. */
  lemma AddProgram()
    ensures var tokens := ["main:", "add", "$t0", "$zero", "$zero"];
      RunFrom(Start(), Tokenize(Join(tokens, " "))) == Run(WriteU32(0x0000_4020), Ok(()))
  {
    var tokens := ["main:", "add", "$t0", "$zero", "$zero"];
    forall k | 0 <= k < |tokens|
      ensures tokens[k] != [] && SeparatorFree(tokens[k], Separators)
    {
    }
    TokenizeRoundTrip(tokens, "");
    NmaEncode.Tokens();
    var m := Start().(state := Scanning);
    assert tokens == ["main:"] + (["add", "$t0", "$zero", "$zero"] + []);
    assert RunFrom(Start(), tokens) == RunFrom(m, ["add", "$t0", "$zero", "$zero"] + []);
    CompleteR(m, "add", "$t0", "$zero", "$zero", []);
    var e := AssembleR(ROperation("add").value, ["add", "$t0", "$zero", "$zero"]);
    assert e.Ok?;
    PackRFields(e.value);
    assert e.value == 0x0000_4020;
  }
}
