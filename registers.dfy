/** Register naming shared by both assemblers: `reg_number` and `assemble_reg`
    are textually identical in name-as/src/nma.rs and src/nma.rs. */
module Registers {
  import opened Outcome
  import RustNum

  /** The length in bytes of the UTF-8 encoding of `c`. */
  function Utf8Width(c: char): nat {
    if c as int < 0x80 then 1 else if c as int < 0x800 then 2 else if c as int < 0x1_0000 then 3 else 4
  }

  /** `str::len`, which counts bytes, not characters. */
  function ByteLength(s: string): (n: nat)
    ensures n >= |s|
  {
    if s == [] then 0 else Utf8Width(s[0]) + ByteLength(s[1..])
  }

  predicate IsDecimalDigit(c: char) {
    '0' <= c <= '9'
  }

  /** `reg_number`: the decimal digit in the third position of a three-byte token. */
  function RegNumber(m: string): (r: Result<bv8, string>)
    ensures !r.Panic?
    ensures r.Ok? <==> ByteLength(m) == 3 && |m| == 3 && IsDecimalDigit(m[2])
    ensures r.Ok? ==> r.value < 10 && r.value as int == m[2] as int - '0' as int
  {
    if ByteLength(m) != 3 then Err("Mnemonic out of bounds")
    else if |m| < 3 then Err("Malformed mnemonic")
    else
      match RustNum.ToDigit(m[2], 10)
      case Some(digit) => if digit <= 31 then Ok(digit as bv8) else Err("Expected u8")
      case None => Err("Invalid register index")
  }

  /** The two shapes `assemble_reg` accepts: one of the six fixed aliases after
      the first character, or a three-character token with a decimal digit third. */
  predicate Resolvable(m: string) {
    m != [] && (m[1..] in {"zero", "at", "gp", "sp", "fp", "ra"} || (|m| == 3 && IsDecimalDigit(m[2])))
  }

  /** `assemble_reg`: a register name (`$zero`, `$t3`, ...) or a three-character
      decimal literal to its register index. The first character is skipped
      unchecked; slicing it off panics when the token is empty or starts with a
      multi-byte character. */
  function AssembleReg(m: string): (r: Result<bv8, string>)
    ensures r.Ok? ==> r.value <= 31
    ensures r.Panic? <==> m == [] || Utf8Width(m[0]) != 1
    ensures r.Ok? ==> Resolvable(m)
  {
    if m == [] then Panic("byte index 1 is out of bounds")
    else if Utf8Width(m[0]) != 1 then Panic("byte index 1 is not a char boundary")
    else if m[1..] == "zero" then Ok(0)
    else if m[1..] == "at" then Ok(1)
    else if m[1..] == "gp" then Ok(28)
    else if m[1..] == "sp" then Ok(29)
    else if m[1..] == "fp" then Ok(30)
    else if m[1..] == "ra" then Ok(31)
    else
      var n :- RegNumber(m);
      var reg := FamilyIndex(m, n);
      if reg <= 31 then Ok(reg) else Err("Register out of bounds")
  }

  /** The index `assemble_reg` derives from the family letter `m[1]` and the
      digit `n`; a token of no family is read whole as a decimal `u8`, and `99`
      (out of bounds) when that fails. */
  function FamilyIndex(m: string, n: bv8): bv8
    requires |m| >= 2
  {
    if m[1] == 'v' then n + 2
    else if m[1] == 'a' then n + 4
    else if m[1] == 't' then (if n <= 7 then n + 8 else n + 16)
    else if m[1] == 's' then n + 16
    else match RustNum.FromStrRadix(m, 10, RustNum.U8Max)
      case Some(v) => v as bv8
      case None => 99
  }

  /** The o32 calling-convention names of registers 0 to 31, in order. */
  const O32Names: seq<string> := [
    "zero", "at", "v0", "v1", "a0", "a1", "a2", "a3",
    "t0", "t1", "t2", "t3", "t4", "t5", "t6", "t7",
    "s0", "s1", "s2", "s3", "s4", "s5", "s6", "s7",
    "t8", "t9", "k0", "k1", "gp", "sp", "fp", "ra"
  ]

  lemma {:induction false} AsciiByteLength(s: string)
    requires forall i :: 0 <= i < |s| ==> s[i] as int < 0x80
    ensures ByteLength(s) == |s|
  {
    if s != [] {
      AsciiByteLength(s[1..]);
    }
  }

  /** The numbered families: `$v`, `$a` and `$s` add 2, 4 and 16 to the digit;
      `$t` adds 8 to digits 0-7 and 16 to digits 8 and 9 (`$t8` is 24). */
  lemma NumberedName(m: string)
    requires |m| == 3 && m[0] == '$' && m[1] in {'v', 'a', 't', 's'} && IsDecimalDigit(m[2])
    ensures var f, n, r := m[1], (m[2] as int - '0' as int) as bv8, AssembleReg(m);
      && n < 10
      && (f == 'v' ==> r == Ok(n + 2))
      && (f == 'a' ==> r == Ok(n + 4))
      && (f == 't' && n <= 7 ==> r == Ok(n + 8))
      && (f == 't' && n >= 8 ==> r == Ok(n + 16))
      && (f == 's' ==> r == Ok(n + 16))
  {
    NumberedResolves(m);
  }

  /** A numbered token passes every earlier rule and resolves through its family. */
  lemma NumberedResolves(m: string)
    requires |m| == 3 && m[0] == '$' && m[1] in {'v', 'a', 't', 's'} && IsDecimalDigit(m[2])
    ensures var n := (m[2] as int - '0' as int) as bv8;
      FamilyIndex(m, n) <= 31 && AssembleReg(m) == Ok(FamilyIndex(m, n))
  {
    AsciiByteLength(m);
    var tail := m[1..];
    assert |tail| == 2 && tail[0] == m[1] && tail[1] == m[2];
    assert tail != "zero" && tail != "at" && tail != "gp";
    assert tail != "sp" && tail != "fp" && tail != "ra";
    var n := (m[2] as int - '0' as int) as bv8;
    assert RegNumber(m) == Ok(n);
  }

  /** A `$` followed by decimal digits never resolves: a token other than three
      bytes long fails `reg_number`, and a three-byte one reaches the numeric
      branch, which parses the whole token, `$` included, and so falls back to
      the out-of-bounds 99. */
  lemma DollarNumberRefused(m: string)
    requires |m| >= 2 && m[0] == '$' && forall k :: 1 <= k < |m| ==> IsDecimalDigit(m[k])
    ensures AssembleReg(m).Err?
  {
    AsciiByteLength(m);
    var tail := m[1..];
    assert tail[0] == m[1];
    assert tail != "zero" && tail != "at" && tail != "gp";
    assert tail != "sp" && tail != "fp" && tail != "ra";
    if |m| == 3 {
      RustNum.DigitsValueRejects(m, 10, 0);
    }
  }

  /** The numeric branch on concrete tokens: `$0` is too short, `$10` is refused
      as out of bounds, a bare `5` is too short, and only a three-byte literal
      such as `012` resolves. */
  lemma NumericTokens()
    ensures AssembleReg("$0") == Err("Mnemonic out of bounds")
    ensures AssembleReg("$10") == Err("Register out of bounds")
    ensures AssembleReg("5") == Err("Mnemonic out of bounds")
    ensures AssembleReg("012") == Ok(12)
  {
    DollarNumberRefused("$10");
    ThreeByteLiteral();
  }

  /** `012` passes `reg_number` and parses whole as the decimal 12. */
  lemma ThreeByteLiteral()
    ensures AssembleReg("012") == Ok(12)
  {
    AsciiByteLength("012");
    RustNum.DigitsSnoc([], '0', 10, 0, 0);
    assert [] + ['0'] == "0";
    RustNum.DigitsSnoc("0", '1', 10, 0, 1);
    assert "0" + ['1'] == "01";
    RustNum.DigitsSnoc("01", '2', 10, 1, 2);
    assert "01" + ['2'] == "012";
  }

  /** The six names with a fixed index. */
  lemma NamedAliases()
    ensures AssembleReg("$zero") == Ok(0) && AssembleReg("$at") == Ok(1)
    ensures AssembleReg("$gp") == Ok(28) && AssembleReg("$sp") == Ok(29)
    ensures AssembleReg("$fp") == Ok(30) && AssembleReg("$ra") == Ok(31)
  {
  }

  /** A decimal digit plus a family offset does not wrap a `u8`. */
  lemma DigitOffset(d: int)
    requires 0 <= d < 10
    ensures (d as bv8) + 2 == (d + 2) as bv8 && (d as bv8) + 4 == (d + 4) as bv8
    ensures (d as bv8) + 8 == (d + 8) as bv8 && (d as bv8) + 16 == (d + 16) as bv8
    ensures (d as bv8 <= 7) == (d <= 7)
  {
    if d == 0 {} else if d == 1 {} else if d == 2 {} else if d == 3 {} else if d == 4 {}
    else if d == 5 {} else if d == 6 {} else if d == 7 {} else if d == 8 {} else {}
  }

  /** One numbered o32 name resolves to its table index. */
  lemma O32Entry(i: nat, f: char, d: nat)
    requires i < 32 && f in {'v', 'a', 't', 's'} && d < 10
    requires O32Names[i] == [f, RustNum.DigitChar(d)]
    requires i == (if f == 'v' then 2 + d else if f == 'a' then 4 + d else if f == 's' || d >= 8 then 16 + d else 8 + d)
    ensures AssembleReg("$" + O32Names[i]) == Ok(i as bv8)
  {
    var m := "$" + O32Names[i];
    assert |m| == 3 && m[0] == '$' && m[1] == f && m[2] == RustNum.DigitChar(d);
    NumberedName(m);
    DigitOffset(d);
  }

  lemma O32ValueResolve(i: nat)
    requires 2 <= i < 4
    ensures AssembleReg("$" + O32Names[i]) == Ok(i as bv8)
  {
    if i == 2 { O32Entry(2, 'v', 0); }
    else { O32Entry(3, 'v', 1); }
  }

  lemma O32ArgResolve(i: nat)
    requires 4 <= i < 8
    ensures AssembleReg("$" + O32Names[i]) == Ok(i as bv8)
  {
    if i == 4 { O32Entry(4, 'a', 0); }
    else if i == 5 { O32Entry(5, 'a', 1); }
    else if i == 6 { O32Entry(6, 'a', 2); }
    else { O32Entry(7, 'a', 3); }
  }

  lemma O32TempLowResolve(i: nat)
    requires 8 <= i < 12
    ensures AssembleReg("$" + O32Names[i]) == Ok(i as bv8)
  {
    if i == 8 { O32Entry(8, 't', 0); }
    else if i == 9 { O32Entry(9, 't', 1); }
    else if i == 10 { O32Entry(10, 't', 2); }
    else { O32Entry(11, 't', 3); }
  }

  lemma O32TempHighResolve(i: nat)
    requires 12 <= i < 16
    ensures AssembleReg("$" + O32Names[i]) == Ok(i as bv8)
  {
    if i == 12 { O32Entry(12, 't', 4); }
    else if i == 13 { O32Entry(13, 't', 5); }
    else if i == 14 { O32Entry(14, 't', 6); }
    else { O32Entry(15, 't', 7); }
  }

  lemma O32SavedLowResolve(i: nat)
    requires 16 <= i < 20
    ensures AssembleReg("$" + O32Names[i]) == Ok(i as bv8)
  {
    if i == 16 { O32Entry(16, 's', 0); }
    else if i == 17 { O32Entry(17, 's', 1); }
    else if i == 18 { O32Entry(18, 's', 2); }
    else { O32Entry(19, 's', 3); }
  }

  lemma O32SavedHighResolve(i: nat)
    requires 20 <= i < 24
    ensures AssembleReg("$" + O32Names[i]) == Ok(i as bv8)
  {
    if i == 20 { O32Entry(20, 's', 4); }
    else if i == 21 { O32Entry(21, 's', 5); }
    else if i == 22 { O32Entry(22, 's', 6); }
    else { O32Entry(23, 's', 7); }
  }

  lemma O32TempExtraResolve(i: nat)
    requires 24 <= i < 26
    ensures AssembleReg("$" + O32Names[i]) == Ok(i as bv8)
  {
    if i == 24 { O32Entry(24, 't', 8); }
    else { O32Entry(25, 't', 9); }
  }

  lemma O32AliasResolve(i: nat)
    requires i < 2 || 28 <= i < 32
    ensures AssembleReg("$" + O32Names[i]) == Ok(i as bv8)
  {
    NamedAliases();
    if i == 0 { assert "$" + O32Names[i] == "$zero"; }
    else if i == 1 { assert "$" + O32Names[i] == "$at"; }
    else if i == 28 { assert "$" + O32Names[i] == "$gp"; }
    else if i == 29 { assert "$" + O32Names[i] == "$sp"; }
    else if i == 30 { assert "$" + O32Names[i] == "$fp"; }
    else { assert "$" + O32Names[i] == "$ra"; }
  }

  /** Each o32 name other than `$k0` and `$k1` resolves to its index. */
  lemma O32Resolve(i: nat)
    requires i < 32 && i != 26 && i != 27
    ensures AssembleReg("$" + O32Names[i]) == Ok(i as bv8)
  {
    if i < 2 || i >= 28 { O32AliasResolve(i); }
    else if i < 4 { O32ValueResolve(i); }
    else if i < 8 { O32ArgResolve(i); }
    else if i < 12 { O32TempLowResolve(i); }
    else if i < 16 { O32TempHighResolve(i); }
    else if i < 20 { O32SavedLowResolve(i); }
    else if i < 24 { O32SavedHighResolve(i); }
    else { O32TempExtraResolve(i); }
  }

  /** Every o32 register name resolves to its own index, except the kernel
      registers `$k0` and `$k1`, which no rule of `assemble_reg` accepts. */
  lemma O32NamesResolve()
    ensures forall i :: 0 <= i < 32 && i != 26 && i != 27 ==> AssembleReg("$" + O32Names[i]) == Ok(i as bv8)
    ensures AssembleReg("$k0").Err? && AssembleReg("$k1").Err?
  {
    forall i | 0 <= i < 32 && i != 26 && i != 27
      ensures AssembleReg("$" + O32Names[i]) == Ok(i as bv8)
    {
      O32Resolve(i);
    }
    AsciiByteLength("$k0");
    AsciiByteLength("$k1");
  }
}
