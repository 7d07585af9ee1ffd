/** 32-bit MIPS words: the R, I and J field layouts of the MIPS32 instruction
    formats, and the two byte orders in which a word is stored. */
module Word {

  /** Bits 31-26. */
  function Opcode(w: bv32): bv32 { w >> 26 }
  /** Bits 25-21. */
  function Rs(w: bv32): bv32 { (w >> 21) & 0x1F }
  /** Bits 20-16. */
  function Rt(w: bv32): bv32 { (w >> 16) & 0x1F }
  /** Bits 15-11. */
  function Rd(w: bv32): bv32 { (w >> 11) & 0x1F }
  /** Bits 10-6. */
  function Shamt(w: bv32): bv32 { (w >> 6) & 0x1F }
  /** Bits 5-0. */
  function Funct(w: bv32): bv32 { w & 0x3F }
  /** Bits 15-0. */
  function Imm(w: bv32): bv32 { w & 0xFFFF }
  /** Bits 25-0. */
  function Target(w: bv32): bv32 { w & 0x3FF_FFFF }

  /** R-type word: opcode 0, then rs, rt, rd, shamt and funct, shifted in one
      after the other as the assemblers do. */
  function PackR(rs: bv32, rt: bv32, rd: bv32, shamt: bv32, funct: bv32): (w: bv32)
    requires rs < 32 && rt < 32 && rd < 32 && shamt < 32 && funct < 64
    ensures Opcode(w) == 0 && Rs(w) == rs && Rt(w) == rt && Rd(w) == rd
    ensures Shamt(w) == shamt && Funct(w) == funct
  {
    ((((((((((0 << 6) | rs) << 5) | rt) << 5) | rd) << 5) | shamt) << 6) | funct)
  }

  /** I-type word: opcode, rs, rt, then the 16-bit immediate. */
  function PackI(opcode: bv32, rs: bv32, rt: bv32, imm: bv32): (w: bv32)
    requires opcode < 64 && rs < 32 && rt < 32 && imm < 0x1_0000
    ensures Opcode(w) == opcode && Rs(w) == rs && Rt(w) == rt && Imm(w) == imm
  {
    ((((((opcode << 5) | rs) << 5) | rt) << 16) | imm)
  }

  /** J-type word: opcode, then the 26-bit target. */
  function PackJ(opcode: bv32, target: bv32): (w: bv32)
    requires opcode < 64 && target < 0x400_0000
    ensures Opcode(w) == opcode && Target(w) == target
  {
    (opcode << 26) | target
  }

  /** Every word with opcode 0 is the R-type packing of its own fields, so the
      R layout loses nothing. */
  lemma PackRFields(w: bv32)
    requires Opcode(w) == 0
    ensures PackR(Rs(w), Rt(w), Rd(w), Shamt(w), Funct(w)) == w
  {
  }

  /** Every word is the I-type packing of its own fields. */
  lemma PackIFields(w: bv32)
    ensures PackI(Opcode(w), Rs(w), Rt(w), Imm(w)) == w
  {
  }

  /** Every word is the J-type packing of its own fields. */
  lemma PackJFields(w: bv32)
    ensures PackJ(Opcode(w), Target(w)) == w
  {
  }

  /** `u32::to_be_bytes`: most significant byte first. */
  function BeBytes(w: bv32): (b: seq<bv8>)
    ensures |b| == 4
  {
    [(w >> 24) as bv8, ((w >> 16) & 0xFF) as bv8, ((w >> 8) & 0xFF) as bv8, (w & 0xFF) as bv8]
  }

  /** The little-endian reading of four bytes (`read_u32::<LittleEndian>`):
      the first byte is the least significant. */
  function LeWord(b: seq<bv8>): bv32
    requires |b| == 4
  {
    (b[0] as bv32) | ((b[1] as bv32) << 8) | ((b[2] as bv32) << 16) | ((b[3] as bv32) << 24)
  }

  /** The little-endian reading of two bytes (`read_u16::<LittleEndian>`). */
  function LeHalf(b: seq<bv8>): bv16
    requires |b| == 2
  {
    (b[0] as bv16) | ((b[1] as bv16) << 8)
  }

  /** The least significant byte first (`write_u32::<LittleEndian>`). */
  function LeBytes(w: bv32): (b: seq<bv8>)
    ensures |b| == 4 && LeWord(b) == w
  {
    var b0, b1, b2, b3 := (w & 0xFF) as bv8, ((w >> 8) & 0xFF) as bv8, ((w >> 16) & 0xFF) as bv8, (w >> 24) as bv8;
    assert b0 as bv32 == w & 0xFF;
    assert b1 as bv32 == (w >> 8) & 0xFF;
    assert b2 as bv32 == (w >> 16) & 0xFF;
    assert b3 as bv32 == w >> 24;
    [b0, b1, b2, b3]
  }

  /** `write_u16::<LittleEndian>`. */
  function LeHalfBytes(h: bv16): (b: seq<bv8>)
    ensures |b| == 2 && LeHalf(b) == h
  {
    var b0, b1 := (h & 0xFF) as bv8, (h >> 8) as bv8;
    assert b0 as bv16 == h & 0xFF;
    assert b1 as bv16 == h >> 8;
    [b0, b1]
  }

  /** Four bytes read little-endian and written back give the same bytes. */
  lemma LeBytesOfLeWord(b: seq<bv8>)
    requires |b| == 4
    ensures LeBytes(LeWord(b)) == b
  {
    ByteFields(b[0] as bv32, b[1] as bv32, b[2] as bv32, b[3] as bv32);
    Widen(b[0]);
    Widen(b[1]);
    Widen(b[2]);
    Widen(b[3]);
  }

  lemma ByteFields(x0: bv32, x1: bv32, x2: bv32, x3: bv32)
    requires x0 < 256 && x1 < 256 && x2 < 256 && x3 < 256
    ensures var w := x0 | (x1 << 8) | (x2 << 16) | (x3 << 24);
      w & 0xFF == x0 && (w >> 8) & 0xFF == x1 && (w >> 16) & 0xFF == x2 && w >> 24 == x3
  {
  }

  lemma Widen(x: bv8)
    ensures (x as bv32) as bv8 == x
  {
  }

  /** A number below 2^16 stays below 2^16 as a `u32`. */
  lemma HalfWordBound(n: nat)
    requires n <= 0xFFFF
    ensures (n as bv32) < 0x1_0000
  {
  }

  /** A word below 2^16 survives being cut to a `u16`. */
  lemma LowHalfOf(x: bv32)
    requires x < 0x1_0000
    ensures x & 0xFFFF == x && (x as bv16) as bv32 == x
  {
  }
}
