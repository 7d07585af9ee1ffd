/** Field checks and number parsing of the syntax-tree-driven assembler
    (name-as/src/nma.rs): strict bit-width checks and numeric literals. */
module NmaFields {
  import opened Outcome
  import RustNum

  /** `mask_u8(n, x)`: `n` itself when it fits in `x` bits, an error otherwise;
      it never truncates. (`1 << x` overflows a `u8` from `x == 8` on.) */
  function MaskU8(n: bv8, x: bv8): (r: Result<bv8, string>)
    requires x < 8
    ensures !r.Panic?
    ensures r.Ok? <==> n < (1 << x)
    ensures r.Ok? ==> r.value == n
    ensures r.Err? ==> r.error == "Masking error"
  {
    var out := n & ((1 << x) - 1);
    if out != n then Err("Masking error") else Ok(out)
  }

  /** `mask_u32(n, x)`: the same check on a `u32`. */
  function MaskU32(n: bv32, x: bv8): (r: Result<bv32, string>)
    requires x < 32
    ensures !r.Panic?
    ensures r.Ok? <==> n >> x == 0
    ensures r.Ok? ==> r.value == n
    ensures r.Err? ==> r.error == "Masking error"
  {
    var out := n & ((1 << x) - 1);
    MaskBits32(n, x);
    if out != n then Err("Masking error") else Ok(out)
  }

  lemma MaskBits32(n: bv32, x: bv8)
    requires x < 32
    ensures (n & ((1 << x) - 1) == n) <==> n >> x == 0
  {
    MaskBitsIf(n, x);
    MaskBitsOnlyIf(n, x);
  }

  lemma MaskBitsIf(n: bv32, x: bv8)
    requires x < 32
    ensures n >> x == 0 ==> n & ((1 << x) - 1) == n
  {
  }

  lemma MaskBitsOnlyIf(n: bv32, x: bv8)
    requires x < 32
    ensures n & ((1 << x) - 1) == n ==> n >> x == 0
  {
  }

  /** A successful mask is a fixed point: masking its result again changes nothing. */
  lemma MaskIdempotent(n: bv8, m: bv32, x: bv8)
    requires x < 8
    ensures MaskU8(n, x).Ok? ==> MaskU8(MaskU8(n, x).value, x) == MaskU8(n, x)
    ensures MaskU32(m, x).Ok? ==> MaskU32(MaskU32(m, x).value, x) == MaskU32(m, x)
  {
  }

  /** A parsed `u32`, or the given error. */
  function ParsedOr(p: Option<nat>, error: string): (r: Result<bv32, string>)
    requires p.Some? ==> p.value <= RustNum.U32Max
    ensures p.Some? ==> r == Ok(p.value as bv32)
    ensures p.None? ==> r == Err(error)
  {
    match p
    case Some(v) => Ok(v as bv32)
    case None => Err(error)
  }

  /** `base_parse`: a `u32` literal, hexadecimal after `0x`, binary after `0b`,
      octal after a leading `0` when more follows, decimal otherwise. */
  function BaseParse(input: string): (r: Result<bv32, string>)
    ensures !r.Panic?
  {
    if |input| >= 2 && input[..2] == "0x" then
      ParsedOr(RustNum.FromStrRadix(input[2..], 16, RustNum.U32Max), "Failed to parse as hexadecimal")
    else if |input| >= 2 && input[..2] == "0b" then
      ParsedOr(RustNum.FromStrRadix(input[2..], 2, RustNum.U32Max), "Failed to parse as binary")
    else if |input| > 1 && input[0] == '0' then
      ParsedOr(RustNum.FromStrRadix(input[1..], 8, RustNum.U32Max), "Failed to parse as octal")
    else
      ParsedOr(RustNum.FromStrRadix(input, 10, RustNum.U32Max), "Failed to parse as decimal")
  }

  /** Every `u32` written in any of the four notations parses back to itself. */
  lemma BaseParseRoundTrip(n: nat)
    requires n <= RustNum.U32Max
    ensures BaseParse("0x" + RustNum.Render(n, 16)) == Ok(n as bv32)
    ensures BaseParse("0b" + RustNum.Render(n, 2)) == Ok(n as bv32)
    ensures BaseParse("0" + RustNum.Render(n, 8)) == Ok(n as bv32)
    ensures BaseParse(RustNum.Render(n, 10)) == Ok(n as bv32)
  {
    PrefixedRoundTrip(n, 'x', 16);
    PrefixedRoundTrip(n, 'b', 2);
    OctalRoundTrip(n);
    DecimalRoundTrip(n);
  }

  lemma PrefixedRoundTrip(n: nat, p: char, radix: nat)
    requires n <= RustNum.U32Max
    requires (p == 'x' && radix == 16) || (p == 'b' && radix == 2)
    ensures BaseParse(['0', p] + RustNum.Render(n, radix)) == Ok(n as bv32)
  {
    var s := ['0', p] + RustNum.Render(n, radix);
    RustNum.RenderRoundTrip(n, radix, RustNum.U32Max);
    assert s[..2] == ['0', p] && s[2..] == RustNum.Render(n, radix);
  }

  lemma OctalRoundTrip(n: nat)
    requires n <= RustNum.U32Max
    ensures BaseParse("0" + RustNum.Render(n, 8)) == Ok(n as bv32)
  {
    var digits := RustNum.Render(n, 8);
    var s := "0" + digits;
    RustNum.RenderRoundTrip(n, 8, RustNum.U32Max);
    assert s[1..] == digits;
    assert '0' <= digits[0] <= '9' by {
      RustNum.RenderDigits(n, 8);
      assert digits[0] in digits;
    }
    assert s[..2] == ['0', digits[0]];
  }

  lemma DecimalRoundTrip(n: nat)
    requires n <= RustNum.U32Max
    ensures BaseParse(RustNum.Render(n, 10)) == Ok(n as bv32)
  {
    var s := RustNum.Render(n, 10);
    RustNum.RenderRoundTrip(n, 10, RustNum.U32Max);
    if |s| >= 2 {
      RustNum.RenderHead(n, 10);
      RustNum.RenderLong(n, 10);
      assert s[0] != '0';
      assert s[..2] != "0x" && s[..2] != "0b" by {
        assert s[..2][0] == s[0];
      }
    }
  }

  /** A bare prefix, a digit outside the radix and a sign are errors. */
  lemma BaseParseErrors()
    ensures BaseParse("0x") == Err("Failed to parse as hexadecimal")
    ensures BaseParse("09") == Err("Failed to parse as octal")
    ensures BaseParse("-1") == Err("Failed to parse as decimal")
  {
    assert "0x"[..2] == "0x" && "0x"[2..] == [];
    assert "09"[..2] == "09" && "09"[1..] == "9";
    assert "9"[..0] == [];
    assert "-1"[..2] == "-1" && "-1"[..1] == "-";
    assert "-"[..0] == [];
    assert RustNum.DigitsValue("-", 10) == None;
    assert RustNum.DigitsValue("-1", 10) == None;
  }
}
