/** The emulator core (src/mips.rs): a register file, a program counter and a
    list of memory regions, with instruction decoding and the execution of the
    handful of implemented instructions. */
module Emulator {
  import opened Outcome
  import opened Word

  /** A `u32` used as an address; address arithmetic wraps explicitly. */
  type U32 = x: int | 0 <= x < 0x1_0000_0000

  /** `a + k` in wrapping `u32` arithmetic. */
  function WrapAdd(a: U32, k: nat): U32 {
    (a + k) % 0x1_0000_0000
  }

  const DotText: U32 := 0x0040_0000
  const DotTextMaxLength: U32 := 0x1000

  /** `ExecutionErrors`. */
  datatype ExecError = MemoryObviouslyUninitializedAccess | MemoryUnknownAccess

  /** One memory pool: its bytes so far, its base address and the length of
      the range it answers for. */
  datatype Region = Region(pool: seq<bv8>, base: U32, maxLength: U32)

  /** Whether a region's range holds an address; the end of the range is
      computed in wrapping `u32` arithmetic. */
  predicate Covers(r: Region, address: U32) {
    r.base <= address < WrapAdd(r.base, r.maxLength)
  }

  // ------------------------------------------------------------ memory

  /** `map_memory`: the index of the first region whose range holds the
      address (the offset within it is the address less the region's base). */
  function Locate(memories: seq<Region>, address: U32): (r: Option<nat>)
    ensures r.Some? ==> (r.value < |memories| && Covers(memories[r.value], address))
    ensures r.Some? ==> forall j :: 0 <= j < r.value ==> !Covers(memories[j], address)
    ensures r.None? ==> forall j :: 0 <= j < |memories| ==> !Covers(memories[j], address)
  {
    LocateFrom(memories, address, 0)
  }

  function LocateFrom(memories: seq<Region>, address: U32, k: nat): (r: Option<nat>)
    requires k <= |memories|
    requires forall j :: 0 <= j < k ==> !Covers(memories[j], address)
    ensures r.Some? ==> (k <= r.value < |memories| && Covers(memories[r.value], address))
    ensures r.Some? ==> forall j :: 0 <= j < r.value ==> !Covers(memories[j], address)
    ensures r.None? ==> forall j :: 0 <= j < |memories| ==> !Covers(memories[j], address)
    decreases |memories| - k
  {
    if k == |memories| then None
    else if Covers(memories[k], address) then Some(k)
    else LocateFrom(memories, address, k + 1)
  }

  /** The offset of an address within region `i`. */
  function Offset(memories: seq<Region>, i: nat, address: U32): nat
    requires i < |memories| && Covers(memories[i], address)
  {
    address - memories[i].base
  }

  /** `read_b`: the byte at an address, an error for an address in no region,
      and a different error for one in a region but past its bytes so far. */
  function LoadB(memories: seq<Region>, address: U32): (r: Result<bv8, ExecError>)
    ensures !r.Panic?
    ensures r == Err(MemoryUnknownAccess) <==> Locate(memories, address).None?
    ensures r == Err(MemoryObviouslyUninitializedAccess) <==>
      (Locate(memories, address).Some?
       && Offset(memories, Locate(memories, address).value, address) >= |memories[Locate(memories, address).value].pool|)
    ensures r.Ok? ==> (Locate(memories, address).Some?
      && var i := Locate(memories, address).value;
         Offset(memories, i, address) < |memories[i].pool| && r.value == memories[i].pool[Offset(memories, i, address)])
  {
    match Locate(memories, address)
    case None => Err(MemoryUnknownAccess)
    case Some(i) =>
      var offset := Offset(memories, i, address);
      if offset < |memories[i].pool| then Ok(memories[i].pool[offset])
      else Err(MemoryObviouslyUninitializedAccess)
  }

  /** `read_h`: two bytes, least significant first. */
  function LoadH(memories: seq<Region>, address: U32): Result<bv16, ExecError> {
    var b0 :- LoadB(memories, address);
    var b1 :- LoadB(memories, WrapAdd(address, 1));
    Ok(LeHalf([b0, b1]))
  }

  /** `read_w`: four bytes, least significant first. */
  function LoadW(memories: seq<Region>, address: U32): Result<bv32, ExecError> {
    var b0 :- LoadB(memories, address);
    var b1 :- LoadB(memories, WrapAdd(address, 1));
    var b2 :- LoadB(memories, WrapAdd(address, 2));
    var b3 :- LoadB(memories, WrapAdd(address, 3));
    Ok(LeWord([b0, b1, b2, b3]))
  }

  /** `write_b`: the memory with one byte replaced. Writing past the bytes a
      region holds so far indexes its pool out of bounds. */
  function StoreB(memories: seq<Region>, address: U32, value: bv8): (r: Result<seq<Region>, ExecError>)
    ensures r == Err(MemoryUnknownAccess) <==> Locate(memories, address).None?
    ensures r.Panic? <==>
      (Locate(memories, address).Some?
       && Offset(memories, Locate(memories, address).value, address) >= |memories[Locate(memories, address).value].pool|)
    ensures r.Ok? <==>
      (Locate(memories, address).Some?
       && Offset(memories, Locate(memories, address).value, address) < |memories[Locate(memories, address).value].pool|)
    ensures r.Ok? ==> |r.value| == |memories|
    ensures r.Ok? ==> forall j :: 0 <= j < |memories| ==>
      (r.value[j].base == memories[j].base && r.value[j].maxLength == memories[j].maxLength
       && |r.value[j].pool| == |memories[j].pool|)
  {
    match Locate(memories, address)
    case None => Err(MemoryUnknownAccess)
    case Some(i) =>
      var offset := Offset(memories, i, address);
      if offset < |memories[i].pool| then
        Ok(memories[i := memories[i].(pool := memories[i].pool[offset := value])])
      else Panic("index out of bounds")
  }

  /** `write_h` as written: both bytes go to the same address. */
  function StoreHAsWritten(memories: seq<Region>, address: U32, value: bv16): Result<seq<Region>, ExecError> {
    var bytes := LeHalfBytes(value);
    var m :- StoreB(memories, address, bytes[0]);
    StoreB(m, address, bytes[1])
  }

  /** `write_w` as written: all four bytes go to the same address. */
  function StoreWAsWritten(memories: seq<Region>, address: U32, value: bv32): Result<seq<Region>, ExecError> {
    var bytes := LeBytes(value);
    var m :- StoreB(memories, address, bytes[0]);
    var m :- StoreB(m, address, bytes[1]);
    var m :- StoreB(m, address, bytes[2]);
    StoreB(m, address, bytes[3])
  }

  /** `write_h` as intended: the two bytes at consecutive addresses. */
  function StoreH(memories: seq<Region>, address: U32, value: bv16): Result<seq<Region>, ExecError> {
    var bytes := LeHalfBytes(value);
    var m :- StoreB(memories, address, bytes[0]);
    StoreB(m, WrapAdd(address, 1), bytes[1])
  }

  /** `write_w` as intended: the four bytes at consecutive addresses. */
  function StoreW(memories: seq<Region>, address: U32, value: bv32): Result<seq<Region>, ExecError> {
    var bytes := LeBytes(value);
    var m :- StoreB(memories, address, bytes[0]);
    var m :- StoreB(m, WrapAdd(address, 1), bytes[1]);
    var m :- StoreB(m, WrapAdd(address, 2), bytes[2]);
    StoreB(m, WrapAdd(address, 3), bytes[3])
  }

  /** Regions with the same ranges map every address alike. */
  lemma {:induction false} LocateFromSameRanges(m1: seq<Region>, m2: seq<Region>, address: U32, k: nat)
    requires |m1| == |m2| && k <= |m1|
    requires forall j :: 0 <= j < |m1| ==> (m1[j].base == m2[j].base && m1[j].maxLength == m2[j].maxLength)
    requires forall j :: 0 <= j < k ==> !Covers(m1[j], address)
    ensures forall j :: 0 <= j < k ==> !Covers(m2[j], address)
    ensures LocateFrom(m1, address, k) == LocateFrom(m2, address, k)
    decreases |m1| - k
  {
    if k < |m1| {
      assert m1[k].base == m2[k].base && m1[k].maxLength == m2[k].maxLength;
      assert Covers(m1[k], address) == Covers(m2[k], address);
      if !Covers(m1[k], address) {
        LocateFromSameRanges(m1, m2, address, k + 1);
      }
    }
  }

  /** A store changes no range, so every address maps as before. */
  lemma StoreKeepsMap(memories: seq<Region>, address: U32, value: bv8, other: U32)
    requires StoreB(memories, address, value).Ok?
    ensures Locate(StoreB(memories, address, value).value, other) == Locate(memories, other)
  {
    LocateFromSameRanges(memories, StoreB(memories, address, value).value, other, 0);
  }

  /** A stored byte reads back, and every other address reads as before. */
  lemma StoreThenLoad(memories: seq<Region>, address: U32, value: bv8, other: U32)
    requires StoreB(memories, address, value).Ok?
    ensures LoadB(StoreB(memories, address, value).value, address) == Ok(value)
    ensures other != address ==> LoadB(StoreB(memories, address, value).value, other) == LoadB(memories, other)
  {
    var m := StoreB(memories, address, value).value;
    StoreKeepsMap(memories, address, value, address);
    StoreKeepsMap(memories, address, value, other);
    var i := Locate(memories, address).value;
    var o := Offset(memories, i, address);
    assert m == memories[i := memories[i].(pool := memories[i].pool[o := value])];
    assert m[i].base == memories[i].base;
    assert Offset(m, i, address) == o;
    if other != address {
      match Locate(memories, other)
      case None =>
      case Some(j) =>
        if j == i {
          assert m[j].base == memories[j].base;
        } else {
          assert m[j] == memories[j];
        }
    }
  }

  /** The four addresses of a word are distinct, even where they wrap. */
  lemma Consecutive(a: U32)
    ensures a != WrapAdd(a, 1) && a != WrapAdd(a, 2) && a != WrapAdd(a, 3)
    ensures WrapAdd(a, 1) != WrapAdd(a, 2) && WrapAdd(a, 1) != WrapAdd(a, 3) && WrapAdd(a, 2) != WrapAdd(a, 3)
  {
  }

  /** A word stored where the memory takes it reads back unchanged. */
  lemma StoreWThenLoadW(memories: seq<Region>, address: U32, value: bv32)
    requires StoreW(memories, address, value).Ok?
    ensures LoadW(StoreW(memories, address, value).value, address) == Ok(value)
  {
    var bytes := LeBytes(value);
    var a0, a1, a2, a3 := address, WrapAdd(address, 1), WrapAdd(address, 2), WrapAdd(address, 3);
    var m1 := StoreB(memories, a0, bytes[0]).value;
    var m2 := StoreB(m1, a1, bytes[1]).value;
    var m3 := StoreB(m2, a2, bytes[2]).value;
    var m4 := StoreB(m3, a3, bytes[3]).value;
    Consecutive(address);
    StoreThenLoad(memories, a0, bytes[0], a1);
    StoreThenLoad(m1, a1, bytes[1], a0);
    StoreThenLoad(m2, a2, bytes[2], a0);
    StoreThenLoad(m2, a2, bytes[2], a1);
    StoreThenLoad(m3, a3, bytes[3], a0);
    StoreThenLoad(m3, a3, bytes[3], a1);
    StoreThenLoad(m3, a3, bytes[3], a2);
    assert LoadB(m4, a0) == Ok(bytes[0]) && LoadB(m4, a1) == Ok(bytes[1]);
    assert LoadB(m4, a2) == Ok(bytes[2]) && LoadB(m4, a3) == Ok(bytes[3]);
    assert [bytes[0], bytes[1], bytes[2], bytes[3]] == bytes;
  }

  /** A halfword stored where the memory takes it reads back unchanged. */
  lemma StoreHThenLoadH(memories: seq<Region>, address: U32, value: bv16)
    requires StoreH(memories, address, value).Ok?
    ensures LoadH(StoreH(memories, address, value).value, address) == Ok(value)
  {
    var bytes := LeHalfBytes(value);
    var m1 := StoreB(memories, address, bytes[0]).value;
    StoreThenLoad(memories, address, bytes[0], WrapAdd(address, 1));
    StoreThenLoad(m1, WrapAdd(address, 1), bytes[1], address);
    assert [bytes[0], bytes[1]] == bytes;
  }

  /** As written, `write_w` leaves only the most significant byte, at the
      address itself, and nothing at the three addresses after it. */
  lemma StoreWAsWrittenKeepsTopByte(memories: seq<Region>, address: U32, value: bv32, other: U32)
    requires StoreWAsWritten(memories, address, value).Ok?
    ensures LoadB(StoreWAsWritten(memories, address, value).value, address) == Ok(LeBytes(value)[3])
    ensures other != address ==> LoadB(StoreWAsWritten(memories, address, value).value, other) == LoadB(memories, other)
  {
    var bytes := LeBytes(value);
    var m1 := StoreB(memories, address, bytes[0]).value;
    var m2 := StoreB(m1, address, bytes[1]).value;
    var m3 := StoreB(m2, address, bytes[2]).value;
    StoreThenLoad(memories, address, bytes[0], other);
    StoreThenLoad(m1, address, bytes[1], other);
    StoreThenLoad(m2, address, bytes[2], other);
    StoreThenLoad(m3, address, bytes[3], other);
  }

  /** As written, `write_h` leaves only the high byte, at the address itself. */
  lemma StoreHAsWrittenKeepsHighByte(memories: seq<Region>, address: U32, value: bv16, other: U32)
    requires StoreHAsWritten(memories, address, value).Ok?
    ensures LoadB(StoreHAsWritten(memories, address, value).value, address) == Ok(LeHalfBytes(value)[1])
    ensures other != address ==> LoadB(StoreHAsWritten(memories, address, value).value, other) == LoadB(memories, other)
  {
    var bytes := LeHalfBytes(value);
    var m1 := StoreB(memories, address, bytes[0]).value;
    StoreThenLoad(memories, address, bytes[0], other);
    StoreThenLoad(m1, address, bytes[1], other);
  }

  /** Four zero bytes at the start of `.text`. */
  function ZeroedText(): seq<Region> {
    [Region([0, 0, 0, 0], DotText, DotTextMaxLength)]
  }

  /** Storing `0x11223344` and reading it back gives `0x11` as written and the
      word itself as intended. */
  lemma WordRoundTripExample()
    ensures StoreWAsWritten(ZeroedText(), DotText, 0x1122_3344).Ok?
    ensures LoadW(StoreWAsWritten(ZeroedText(), DotText, 0x1122_3344).value, DotText) == Ok(0x11)
    ensures StoreW(ZeroedText(), DotText, 0x1122_3344).Ok?
    ensures LoadW(StoreW(ZeroedText(), DotText, 0x1122_3344).value, DotText) == Ok(0x1122_3344)
  {
    var m := ZeroedText();
    var w: bv32 := 0x1122_3344;
    assert Locate(m, DotText) == Some(0) && Locate(m, WrapAdd(DotText, 1)) == Some(0);
    assert Locate(m, WrapAdd(DotText, 2)) == Some(0) && Locate(m, WrapAdd(DotText, 3)) == Some(0);
    assert StoreWAsWritten(m, DotText, w).Ok?;
    var m' := StoreWAsWritten(m, DotText, w).value;
    StoreWAsWrittenKeepsTopByte(m, DotText, w, WrapAdd(DotText, 1));
    StoreWAsWrittenKeepsTopByte(m, DotText, w, WrapAdd(DotText, 2));
    StoreWAsWrittenKeepsTopByte(m, DotText, w, WrapAdd(DotText, 3));
    assert LoadB(m', DotText) == Ok(0x11);
    assert LoadB(m, WrapAdd(DotText, 1)) == Ok(0) && LoadB(m, WrapAdd(DotText, 2)) == Ok(0) && LoadB(m, WrapAdd(DotText, 3)) == Ok(0);
    assert StoreW(m, DotText, w).Ok?;
    StoreWThenLoadW(m, DotText, w);
  }

  // ------------------------------------------------------------ decoding

  /** A decoded instruction: register fields are register numbers, the other
      fields keep the bits they were read from. */
  datatype Instruction =
    | RType(rs: nat, rt: nat, rd: nat, shamt: bv32, funct: bv32)
    | IType(opcode: bv32, rs: nat, rt: nat, imm: bv32)

  predicate WellFormed(ins: Instruction) {
    match ins
    case RType(rs, rt, rd, shamt, funct) => rs < 32 && rt < 32 && rd < 32 && shamt < 32 && funct < 64
    case IType(_, rs, rt, imm) => rs < 32 && rt < 32 && imm < 0x1_0000
  }

  /** A five-bit field as a register number. */
  function Index5(x: bv32): (n: nat)
    requires x < 32
    ensures n < 32
  {
    x as int
  }

  /** `decode` as written: the opcode keeps five bits only, and bits 20-16 of
      an R-type word are taken as `rd`, bits 15-11 as `rt`. */
  function Decode(w: bv32): (ins: Instruction)
    ensures WellFormed(ins)
    ensures ins.RType? <==> (w >> 26) & 0x1F == 0
  {
    var opcode := (w >> 26) & 0x1F;
    if opcode == 0 then RType(Index5(Rs(w)), Index5(Rd(w)), Index5(Rt(w)), Shamt(w), Funct(w))
    else IType(opcode, Index5(Rs(w)), Index5(Rt(w)), Imm(w))
  }

  /** `decode` as intended: the six-bit opcode, and `rt`, `rd` from bits 20-16
      and 15-11. */
  function DecodeFixed(w: bv32): (ins: Instruction)
    ensures WellFormed(ins)
    ensures ins.RType? <==> Opcode(w) == 0
  {
    if Opcode(w) == 0 then RType(Index5(Rs(w)), Index5(Rt(w)), Index5(Rd(w)), Shamt(w), Funct(w))
    else IType(Opcode(w), Index5(Rs(w)), Index5(Rt(w)), Imm(w))
  }

  /** The intended decoder undoes the assembler's R-type packing ... */
  lemma DecodeFixedPackR(rs: bv32, rt: bv32, rd: bv32, shamt: bv32, funct: bv32)
    requires rs < 32 && rt < 32 && rd < 32 && shamt < 32 && funct < 64
    ensures DecodeFixed(PackR(rs, rt, rd, shamt, funct)) == RType(Index5(rs), Index5(rt), Index5(rd), shamt, funct)
  {
  }

  /** ... and its I-type packing, for every nonzero opcode. */
  lemma DecodeFixedPackI(opcode: bv32, rs: bv32, rt: bv32, imm: bv32)
    requires 0 < opcode < 64 && rs < 32 && rt < 32 && imm < 0x1_0000
    ensures DecodeFixed(PackI(opcode, rs, rt, imm)) == IType(opcode, Index5(rs), Index5(rt), imm)
  {
  }

  /** As written, the decoder swaps `rt` and `rd` of every R-type word. */
  lemma DecodeSwapsRtRd(rs: bv32, rt: bv32, rd: bv32, shamt: bv32, funct: bv32)
    requires rs < 32 && rt < 32 && rd < 32 && shamt < 32 && funct < 64
    ensures Decode(PackR(rs, rt, rd, shamt, funct)) == RType(Index5(rs), Index5(rd), Index5(rt), shamt, funct)
  {
    var w := PackR(rs, rt, rd, shamt, funct);
    assert (w >> 26) & 0x1F == Opcode(w) & 0x1F;
  }

  /** As written, an opcode of 32 or more loses its top bit: `lb` (0x20) is
      decoded as an R-type word, `lw` (0x23) as opcode 3. */
  lemma DecodeDropsOpcodeBit(opcode: bv32, rs: bv32, rt: bv32, imm: bv32)
    requires 32 <= opcode < 64 && rs < 32 && rt < 32 && imm < 0x1_0000
    ensures opcode == 32 ==> Decode(PackI(opcode, rs, rt, imm)).RType?
    ensures opcode != 32 ==> Decode(PackI(opcode, rs, rt, imm)) == IType(opcode - 32, Index5(rs), Index5(rt), imm)
    ensures DecodeFixed(PackI(opcode, rs, rt, imm)) == IType(opcode, Index5(rs), Index5(rt), imm)
  {
    var w := PackI(opcode, rs, rt, imm);
    assert (w >> 26) & 0x1F == opcode - 32 by {
      assert w >> 26 == opcode;
      assert opcode & 0x1F == opcode - 32;
    }
  }

  // ------------------------------------------------------------ execution

  const ImplementedFuncts: set<bv32> := {0x00, 0x02, 0x20, 0x22, 0x26}

  /** The value `dispatch_r` writes to `rd`, from the values of `rs` and `rt`:
      `sll`, `srl`, `add`, `sub` and `xor`; `None` for an unimplemented
      function code. As written `sub` adds; `fixed` selects `rs - rt`. */
  function AluR(s: bv32, t: bv32, shamt: bv32, funct: bv32, fixed: bool): (v: Option<bv32>)
    requires shamt < 32
    ensures v.Some? <==> funct in ImplementedFuncts
  {
    if funct == 0x00 then Some(t << shamt)
    else if funct == 0x02 then Some(t >> shamt)
    else if funct == 0x20 then Some(t + s)
    else if funct == 0x22 && fixed then Some(s - t)
    else if funct == 0x22 then Some(t + s)
    else if funct == 0x26 then Some(t ^ s)
    else None
  }

  /** As written, `sub` is `add`: it leaves `rs + rt`. */
  lemma SubIsAdd(s: bv32, t: bv32)
    ensures AluR(s, t, 0, 0x22, false) == AluR(s, t, 0, 0x20, false) == Some(s + t)
  {
  }

  /** As intended, `sub` undoes `add`: `add $rd, $rs, $rt` then
      `sub $rd, $rd, $rt` leaves the old value of `rs`. */
  lemma SubUndoesAdd(s: bv32, t: bv32)
    ensures AluR(s, t, 0, 0x20, true).Some?
    ensures AluR(AluR(s, t, 0, 0x20, true).value, t, 0, 0x22, true) == Some(s)
  {
  }

  /** `xor` is its own inverse. */
  lemma XorTwice(s: bv32, t: bv32)
    ensures AluR(s, t, 0, 0x26, false).Some?
    ensures AluR(s, AluR(s, t, 0, 0x26, false).value, 0, 0x26, false) == Some(t)
  {
    AluXor(s, t);
    AluXor(s, t ^ s);
    XorCancels(t, s);
  }

  lemma AluXor(s: bv32, t: bv32)
    ensures AluR(s, t, 0, 0x26, false) == Some(t ^ s)
  {
  }

  lemma XorCancels(a: bv32, b: bv32)
    ensures (a ^ b) ^ b == a
  {
  }

  /** `dispatch_r` on the register file: only `rd` changes, and it receives
      the `AluR` value; an unknown function code panics. */
  function ExecR(regs: seq<bv32>, ins: Instruction, fixed: bool): (r: Result<seq<bv32>, ExecError>)
    requires |regs| == 32 && ins.RType? && WellFormed(ins)
    ensures !r.Err?
    ensures r.Ok? <==> ins.funct in ImplementedFuncts
    ensures r.Ok? ==> |r.value| == 32
    ensures r.Ok? ==> r.value[ins.rd] == AluR(regs[ins.rs], regs[ins.rt], ins.shamt, ins.funct, fixed).value
    ensures r.Ok? ==> forall k :: 0 <= k < 32 && k != ins.rd ==> r.value[k] == regs[k]
  {
    match AluR(regs[ins.rs], regs[ins.rt], ins.shamt, ins.funct, fixed)
    case None => Panic("R-Type unimplemented instruction")
    case Some(v) => Ok(regs[ins.rd := v])
  }

  /** With 5 in `$t0` and 3 in `$t1`, `sub $t2, $t0, $t1` leaves 8 as
      written and 2 as intended. */
  lemma SubExample()
    ensures var regs := seq(32, k => 0)[8 := 5][9 := 3];
      ExecR(regs, RType(8, 9, 10, 0, 0x22), false).value[10] == 8 &&
      ExecR(regs, RType(8, 9, 10, 0, 0x22), true).value[10] == 2
  {
  }

  /** The value `dispatch_i` writes to `rt`: `ori` with the zero-extended
      immediate, `lui` with the immediate in the upper half; `None` for any
      other opcode. */
  function AluI(s: bv32, opcode: bv32, imm: bv32): (v: Option<bv32>)
    requires imm < 0x1_0000
    ensures v.Some? <==> opcode == 0xD || opcode == 0xF
    ensures opcode == 0xD ==> v.value >> 16 == s >> 16
    ensures opcode == 0xF ==> v.value & 0xFFFF == 0 && v.value >> 16 == imm
  {
    if opcode == 0xD then Some(s | imm)
    else if opcode == 0xF then Some(imm << 16)
    else None
  }

  /** `lui` followed by `ori` on the same register loads any 32-bit constant:
      its upper half is the `lui` immediate, its lower half the `ori` one. */
  lemma LuiThenOri(s: bv32, hi: bv32, lo: bv32)
    requires hi < 0x1_0000 && lo < 0x1_0000
    ensures AluI(s, 0xF, hi).Some?
    ensures AluI(AluI(s, 0xF, hi).value, 0xD, lo).Some?
    ensures AluI(AluI(s, 0xF, hi).value, 0xD, lo).value == (hi << 16) | lo
    ensures ((hi << 16) | lo) >> 16 == hi && ((hi << 16) | lo) & 0xFFFF == lo
  {
    AluLui(s, hi);
    AluOri(hi << 16, lo);
    HalvesOfConstant(hi, lo);
  }

  lemma AluLui(s: bv32, imm: bv32)
    requires imm < 0x1_0000
    ensures AluI(s, 0xF, imm) == Some(imm << 16)
  {
  }

  lemma AluOri(s: bv32, imm: bv32)
    requires imm < 0x1_0000
    ensures AluI(s, 0xD, imm) == Some(s | imm)
  {
  }

  lemma HalvesOfConstant(hi: bv32, lo: bv32)
    requires hi < 0x1_0000 && lo < 0x1_0000
    ensures ((hi << 16) | lo) >> 16 == hi && ((hi << 16) | lo) & 0xFFFF == lo
  {
  }

  /** `dispatch_i` on the register file: only `rt` changes, and it receives
      the `AluI` value; an unknown opcode panics. */
  function ExecI(regs: seq<bv32>, ins: Instruction): (r: Result<seq<bv32>, ExecError>)
    requires |regs| == 32 && ins.IType? && WellFormed(ins)
    ensures !r.Err?
    ensures r.Ok? <==> ins.opcode == 0xD || ins.opcode == 0xF
    ensures r.Ok? ==> |r.value| == 32
    ensures r.Ok? ==> r.value[ins.rt] == AluI(regs[ins.rs], ins.opcode, ins.imm).value
    ensures r.Ok? ==> forall k :: 0 <= k < 32 && k != ins.rt ==> r.value[k] == regs[k]
  {
    match AluI(regs[ins.rs], ins.opcode, ins.imm)
    case None => Panic("I-type unimplemented instruction")
    case Some(v) => Ok(regs[ins.rt := v])
  }

  /** One decoded instruction on the register file; `fixed` selects the
      intended `sub`. */
  function Execute(regs: seq<bv32>, ins: Instruction, fixed: bool): (r: Result<seq<bv32>, ExecError>)
    requires |regs| == 32 && WellFormed(ins)
    ensures !r.Err?
    ensures r.Ok? ==> |r.value| == 32
  {
    match ins
    case RType(_, _, _, _, _) => ExecR(regs, ins, fixed)
    case IType(_, _, _, _) => ExecI(regs, ins)
  }

  // ------------------------------------------------------------ one step

  /** `step_one` as written: fetch the word at `pc`, advance `pc` by one byte,
      decode it with `Decode` and execute it (with `sub` adding). */
  function StepAsWritten(regs: seq<bv32>, pc: U32, memories: seq<Region>): (r: Result<(seq<bv32>, U32), ExecError>)
    requires |regs| == 32
    ensures r.Err? <==> LoadW(memories, pc).Err?
    ensures r.Ok? ==> |r.value.0| == 32 && r.value.1 == WrapAdd(pc, 1)
  {
    var w :- LoadW(memories, pc);
    var next :- Execute(regs, Decode(w), false);
    Ok((next, WrapAdd(pc, 1)))
  }

  /** `step_one` as intended: `pc` advances by the width of the word fetched,
      and decoding and `sub` are the intended ones. */
  function Step(regs: seq<bv32>, pc: U32, memories: seq<Region>): (r: Result<(seq<bv32>, U32), ExecError>)
    requires |regs| == 32
    ensures r.Err? <==> LoadW(memories, pc).Err?
    ensures r.Ok? ==> |r.value.0| == 32 && r.value.1 == WrapAdd(pc, 4)
  {
    var w :- LoadW(memories, pc);
    var next :- Execute(regs, DecodeFixed(w), true);
    Ok((next, WrapAdd(pc, 4)))
  }

  /** As written, a step leaves `pc` off the word grid it started on, so the
      next fetch straddles two instructions. */
  lemma StepAsWrittenMisaligns(regs: seq<bv32>, pc: U32, memories: seq<Region>)
    requires |regs| == 32 && StepAsWritten(regs, pc, memories).Ok?
    ensures StepAsWritten(regs, pc, memories).value.1 % 4 != pc % 4
  {
    var next := StepAsWritten(regs, pc, memories).value.1;
    assert next == WrapAdd(pc, 1);
    WrapAddResidue(pc, 1);
  }

  /** As intended, a step keeps `pc` on its word grid. */
  lemma StepKeepsAlignment(regs: seq<bv32>, pc: U32, memories: seq<Region>)
    requires |regs| == 32 && Step(regs, pc, memories).Ok?
    ensures Step(regs, pc, memories).value.1 % 4 == pc % 4
  {
    var next := Step(regs, pc, memories).value.1;
    assert next == WrapAdd(pc, 4);
    WrapAddResidue(pc, 4);
  }

  /** Wrapping at 2^32 does not change an address modulo 4. */
  lemma WrapAddResidue(a: U32, k: nat)
    requires k < 0x1_0000_0000
    ensures WrapAdd(a, k) % 4 == (a + k) % 4
    ensures k == 4 ==> WrapAdd(a, k) % 4 == a % 4
  {
    if a + k >= 0x1_0000_0000 {
      assert WrapAdd(a, k) == a + k - 0x1_0000_0000;
    }
  }

  /** The memory of a freshly created machine: an empty `.text` pool. */
  function DefaultMemories(): seq<Region> {
    [Region([], DotText, DotTextMaxLength)]
  }

  /** A fresh machine has nothing to run: every byte of `.text` reads as
      uninitialised, every byte outside it as unknown, and so the first step
      stops with an error. */
  lemma FreshMachineCannotStep(regs: seq<bv32>, address: U32)
    requires |regs| == 32
    ensures DotText <= address < DotText + DotTextMaxLength ==> LoadB(DefaultMemories(), address) == Err(MemoryObviouslyUninitializedAccess)
    ensures !(DotText <= address < DotText + DotTextMaxLength) ==> LoadB(DefaultMemories(), address) == Err(MemoryUnknownAccess)
    ensures Step(regs, DotText, DefaultMemories()) == Err(MemoryObviouslyUninitializedAccess)
    ensures StepAsWritten(regs, DotText, DefaultMemories()) == Err(MemoryObviouslyUninitializedAccess)
  {
    assert Locate(DefaultMemories(), DotText) == Some(0);
  }

  /** Reading a word from a single `.text` pool gives the pool's bytes
      taken least significant first. */
  lemma LoadWFromText(pool: seq<bv8>, k: nat)
    requires k + 4 <= |pool| && k + 4 <= DotTextMaxLength
    ensures LoadW([Region(pool, DotText, DotTextMaxLength)], DotText + k) == Ok(LeWord([pool[k], pool[k + 1], pool[k + 2], pool[k + 3]]))
  {
    LoadBFromText(pool, k);
    LoadBFromText(pool, k + 1);
    LoadBFromText(pool, k + 2);
    LoadBFromText(pool, k + 3);
  }

  lemma LoadBFromText(pool: seq<bv8>, k: nat)
    requires k < |pool| && k < DotTextMaxLength
    ensures LoadB([Region(pool, DotText, DotTextMaxLength)], DotText + k) == Ok(pool[k])
    ensures k > 0 ==> WrapAdd(DotText + k - 1, 1) == DotText + k
    ensures k > 1 ==> WrapAdd(DotText + k - 2, 2) == DotText + k
    ensures k > 2 ==> WrapAdd(DotText + k - 3, 3) == DotText + k
  {
    assert Locate([Region(pool, DotText, DotTextMaxLength)], DotText + k) == Some(0);
  }

  /** `.text` holding `lui $t0, 0x1234` (0x3C08_1234) and
      `ori $t0, $t0, 0x5678` (0x3508_5678), each least significant byte first. */
  function LoadConstantProgram(): seq<Region> {
    [Region([0x34, 0x12, 0x08, 0x3C, 0x78, 0x56, 0x08, 0x35], DotText, DotTextMaxLength)]
  }

  /** As intended, two steps load 0x1234_5678 into `$t0`. */
  lemma LoadConstantExample()
    ensures var regs := seq(32, k => 0);
      var first := Step(regs, DotText, LoadConstantProgram());
      first.Ok? && Step(first.value.0, first.value.1, LoadConstantProgram()).Ok? &&
      Step(first.value.0, first.value.1, LoadConstantProgram()).value.0[8] == 0x1234_5678
  {
    var regs: seq<bv32> := seq(32, k => 0);
    FirstStep(regs);
    var upper := ExecI(regs, IType(0xF, 0, 8, 0x1234)).value;
    SecondStep(upper);
    LuiThenOri(0, 0x1234, 0x5678);
  }

  /** The intended first step runs `lui $t0, 0x1234` and moves on a word. */
  lemma FirstStep(regs: seq<bv32>)
    requires |regs| == 32
    ensures Step(regs, DotText, LoadConstantProgram()) == Ok((ExecI(regs, IType(0xF, 0, 8, 0x1234)).value, DotText + 4))
  {
    FirstFetch();
    DecodeLui();
  }

  /** The intended second step runs `ori $t0, $t0, 0x5678` and moves on a word. */
  lemma SecondStep(regs: seq<bv32>)
    requires |regs| == 32
    ensures Step(regs, DotText + 4, LoadConstantProgram()) == Ok((ExecI(regs, IType(0xD, 8, 8, 0x5678)).value, DotText + 8))
  {
    SecondFetch();
    DecodeOri();
  }

  lemma DecodeLui()
    ensures DecodeFixed(0x3C08_1234) == IType(0xF, 0, 8, 0x1234)
    ensures Decode(0x3C08_1234) == IType(0xF, 0, 8, 0x1234)
  {
  }

  lemma DecodeOri()
    ensures DecodeFixed(0x3508_5678) == IType(0xD, 8, 8, 0x5678)
  {
  }

  /** As written, the second step of the same program fetches from one byte
      past the first instruction and hits an unimplemented opcode. */
  lemma LoadConstantExampleAsWritten()
    ensures var regs := seq(32, k => 0);
      var first := StepAsWritten(regs, DotText, LoadConstantProgram());
      first.Ok? && StepAsWritten(first.value.0, first.value.1, LoadConstantProgram()).Panic?
  {
    var regs: seq<bv32> := seq(32, k => 0);
    FirstStepAsWritten(regs);
    var upper := ExecI(regs, IType(0xF, 0, 8, 0x1234)).value;
    MisalignedFetch();
    assert Decode(0x783C_0812).opcode == 0x1E;
  }

  /** The first step as written runs `lui $t0, 0x1234` and moves on a byte. */
  lemma FirstStepAsWritten(regs: seq<bv32>)
    requires |regs| == 32
    ensures StepAsWritten(regs, DotText, LoadConstantProgram()) == Ok((ExecI(regs, IType(0xF, 0, 8, 0x1234)).value, DotText + 1))
  {
    FirstFetch();
    DecodeLui();
  }

  /** The word one byte into the program straddles the two instructions. */
  lemma MisalignedFetch()
    ensures LoadW(LoadConstantProgram(), DotText + 1) == Ok(0x783C_0812)
  {
    LoadWFromText(LoadConstantProgram()[0].pool, 1);
  }

  lemma FirstFetch()
    ensures LoadW(LoadConstantProgram(), DotText) == Ok(0x3C08_1234)
  {
    var pool: seq<bv8> := [0x34, 0x12, 0x08, 0x3C, 0x78, 0x56, 0x08, 0x35];
    assert LoadConstantProgram() == [Region(pool, DotText, DotTextMaxLength)];
    LoadWFromText(pool, 0);
    assert [pool[0], pool[1], pool[2], pool[3]] == [0x34, 0x12, 0x08, 0x3C];
    assert LeWord([0x34, 0x12, 0x08, 0x3C]) == 0x3C08_1234;
  }

  lemma SecondFetch()
    ensures LoadW(LoadConstantProgram(), DotText + 4) == Ok(0x3508_5678)
  {
    var pool: seq<bv8> := [0x34, 0x12, 0x08, 0x3C, 0x78, 0x56, 0x08, 0x35];
    assert LoadConstantProgram() == [Region(pool, DotText, DotTextMaxLength)];
    LoadWFromText(pool, 4);
    assert [pool[4], pool[5], pool[6], pool[7]] == [0x78, 0x56, 0x08, 0x35];
    assert LeWord([0x78, 0x56, 0x08, 0x35]) == 0x3508_5678;
  }

  // ------------------------------------------------------------ the machine

  /** The outcome of an operation with its value dropped. */
  function Status<T>(r: Result<T, ExecError>): (s: Result<(), ExecError>)
    ensures s.Ok? <==> r.Ok?
    ensures r.Err? ==> s == Err(r.error)
    ensures r.Panic? ==> s == Panic(r.reason)
  {
    match r
    case Ok(_) => Ok(())
    case Err(e) => Err(e)
    case Panic(why) => Panic(why)
  }

  /** `Mips`: the register file, the program counter and the memory regions
      (the floating-point registers and `mult_hi`/`mult_lo` are not modelled). */
  class Mips {
    var regs: array<bv32>
    var pc: U32
    var memories: seq<Region>

    ghost predicate Valid()
      reads this
    {
      regs.Length == 32
    }

    /** `Mips::default`: zeroed registers, `pc` at the start of `.text`, and
        one empty `.text` pool. */
    constructor Default()
      ensures Valid() && fresh(regs)
      ensures regs[..] == seq(32, k => 0)
      ensures pc == DotText && memories == DefaultMemories()
    {
      regs := new bv32[32](k => 0);
      pc := DotText;
      memories := DefaultMemories();
    }

    /** `map_memory`: the first region whose range holds the address, with the
        offset of the address within it. */
    method MapMemory(address: U32) returns (found: Option<(nat, nat)>)
      ensures found.None? <==> Locate(memories, address).None?
      ensures found.Some? ==> found.value.0 == Locate(memories, address).value
      ensures found.Some? ==> found.value.1 == address - memories[found.value.0].base
    {
      var k := 0;
      while k < |memories|
        invariant k <= |memories|
        invariant forall j :: 0 <= j < k ==> !Covers(memories[j], address)
        invariant Locate(memories, address) == LocateFrom(memories, address, k)
      {
        var region := memories[k];
        if region.base <= address < WrapAdd(region.base, region.maxLength) {
          return Some((k, address - region.base));
        }
        k := k + 1;
      }
      return None;
    }

    /** `read_b`. */
    method ReadB(address: U32) returns (r: Result<bv8, ExecError>)
      ensures r == LoadB(memories, address)
    {
      var found := MapMemory(address);
      match found
      case None =>
        return Err(MemoryUnknownAccess);
      case Some((i, offset)) =>
        if offset < |memories[i].pool| {
          return Ok(memories[i].pool[offset]);
        }
        return Err(MemoryObviouslyUninitializedAccess);
    }

    /** `read_h`. */
    method ReadH(address: U32) returns (r: Result<bv16, ExecError>)
      ensures r == LoadH(memories, address)
    {
      var b0 :- ReadB(address);
      var b1 :- ReadB(WrapAdd(address, 1));
      return Ok(LeHalf([b0, b1]));
    }

    /** `read_w`. */
    method ReadW(address: U32) returns (r: Result<bv32, ExecError>)
      ensures r == LoadW(memories, address)
    {
      var b0 :- ReadB(address);
      var b1 :- ReadB(WrapAdd(address, 1));
      var b2 :- ReadB(WrapAdd(address, 2));
      var b3 :- ReadB(WrapAdd(address, 3));
      return Ok(LeWord([b0, b1, b2, b3]));
    }

    /** `write_b`: on success the memory is `StoreB` of the old one; an
        address in no region changes nothing. */
    method WriteB(address: U32, value: bv8) returns (r: Result<(), ExecError>)
      modifies this
      ensures r == Status(StoreB(old(memories), address, value))
      ensures r.Ok? ==> memories == StoreB(old(memories), address, value).value
      ensures !r.Ok? ==> memories == old(memories)
      ensures regs == old(regs) && pc == old(pc)
    {
      var found := MapMemory(address);
      match found
      case None =>
        return Err(MemoryUnknownAccess);
      case Some((i, offset)) =>
        if offset < |memories[i].pool| {
          memories := memories[i := memories[i].(pool := memories[i].pool[offset := value])];
          return Ok(());
        }
        return Panic("index out of bounds");
    }

    /** `write_h`, with the second byte at the next address. */
    method WriteH(address: U32, value: bv16) returns (r: Result<(), ExecError>)
      modifies this
      ensures r == Status(StoreH(old(memories), address, value))
      ensures r.Ok? ==> memories == StoreH(old(memories), address, value).value
      ensures regs == old(regs) && pc == old(pc)
    {
      var bytes := LeHalfBytes(value);
      var _ :- WriteB(address, bytes[0]);
      var _ :- WriteB(WrapAdd(address, 1), bytes[1]);
      return Ok(());
    }

    /** `write_w`, with the four bytes at consecutive addresses. */
    method WriteW(address: U32, value: bv32) returns (r: Result<(), ExecError>)
      modifies this
      ensures r == Status(StoreW(old(memories), address, value))
      ensures r.Ok? ==> memories == StoreW(old(memories), address, value).value
      ensures regs == old(regs) && pc == old(pc)
    {
      var bytes := LeBytes(value);
      var _ :- WriteB(address, bytes[0]);
      var _ :- WriteB(WrapAdd(address, 1), bytes[1]);
      var _ :- WriteB(WrapAdd(address, 2), bytes[2]);
      var _ :- WriteB(WrapAdd(address, 3), bytes[3]);
      return Ok(());
    }
  
    /** `dispatch_r` (with the intended `sub`): the register file becomes
        `ExecR` of the old one; an unknown function code panics. */
    method DispatchR(ins: Instruction) returns (r: Result<(), ExecError>)
      requires Valid() && ins.RType? && WellFormed(ins)
      modifies regs
      ensures r == Status(ExecR(old(regs[..]), ins, true))
      ensures r.Ok? ==> regs[..] == ExecR(old(regs[..]), ins, true).value
    {
      var v := AluR(regs[ins.rs], regs[ins.rt], ins.shamt, ins.funct, true);
      match v
      case None =>
        return Panic("R-Type unimplemented instruction");
      case Some(value) =>
        regs[ins.rd] := value;
        return Ok(());
    }

    /** `dispatch_i`: the register file becomes `ExecI` of the old one; an
        unknown opcode panics. */
    method DispatchI(ins: Instruction) returns (r: Result<(), ExecError>)
      requires Valid() && ins.IType? && WellFormed(ins)
      modifies regs
      ensures r == Status(ExecI(old(regs[..]), ins))
      ensures r.Ok? ==> regs[..] == ExecI(old(regs[..]), ins).value
    {
      var v := AluI(regs[ins.rs], ins.opcode, ins.imm);
      match v
      case None =>
        return Panic("I-type unimplemented instruction");
      case Some(value) =>
        regs[ins.rt] := value;
        return Ok(());
    }

    /** `step_one` (advancing `pc` by a word and decoding as intended): the
        outcome, the registers and `pc` are those of `Step`, and memory is
        untouched. */
    method StepOne() returns (r: Result<(), ExecError>)
      requires Valid()
      modifies this, regs
      ensures Valid() && regs == old(regs) && memories == old(memories)
      ensures r == Status(Step(old(regs[..]), old(pc), old(memories)))
      ensures r.Ok? ==> regs[..] == Step(old(regs[..]), old(pc), old(memories)).value.0
      ensures r.Ok? ==> pc == Step(old(regs[..]), old(pc), old(memories)).value.1
      ensures r.Err? ==> regs[..] == old(regs[..]) && pc == old(pc)
    {
      var word :- ReadW(pc);
      pc := WrapAdd(pc, 4);
      var ins := DecodeFixed(word);
      if ins.RType? {
        r := DispatchR(ins);
      } else {
        r := DispatchI(ins);
      }
    }
  }
}
