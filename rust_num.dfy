/** Rust's parsing of unsigned integers (`uN::from_str_radix`, `str::parse::<uN>`)
    and its inverse, the rendering of a number in a radix. */
module RustNum {
  import opened Outcome

  const U8Max: nat := 0xFF
  const U16Max: nat := 0xFFFF
  const U32Max: nat := 0xFFFF_FFFF

  /** `char::to_digit(radix)`: `0-9`, then `a-z` or `A-Z` for 10 to 35. */
  function ToDigit(c: char, radix: nat): (r: Option<nat>)
    requires 2 <= radix <= 36
    ensures r.Some? ==> r.value < radix
    ensures '0' <= c <= '9' && (c as int - '0' as int) < radix ==> r == Some(c as int - '0' as int)
  {
    var d: int :=
      if '0' <= c <= '9' then c as int - '0' as int
      else if 'a' <= c <= 'z' then c as int - 'a' as int + 10
      else if 'A' <= c <= 'Z' then c as int - 'A' as int + 10
      else 36;
    if d < radix then Some(d) else None
  }

  /** The value of a string of digits, most significant first, or `None` when
      some character is not a digit of the radix. */
  function DigitsValue(s: string, radix: nat): Option<nat>
    requires 2 <= radix <= 36
    decreases |s|
  {
    if s == [] then Some(0)
    else match DigitsValue(s[..|s| - 1], radix)
      case None => None
      case Some(v) =>
        match ToDigit(s[|s| - 1], radix)
        case None => None
        case Some(d) => Some(v * radix + d)
  }

  /** A character outside the radix anywhere makes a digit string invalid. */
  lemma {:induction false} DigitsValueRejects(s: string, radix: nat, i: nat)
    requires 2 <= radix <= 36 && i < |s| && ToDigit(s[i], radix).None?
    ensures DigitsValue(s, radix).None?
    decreases |s|
  {
    if i < |s| - 1 {
      var p := s[..|s| - 1];
      assert p[i] == s[i];
      DigitsValueRejects(p, radix, i);
    }
  }

  /** `uN::from_str_radix(s, radix)` for the unsigned type whose largest value is
      `max`: one optional leading `+`, then at least one digit; any digit outside
      the radix or a value above `max` is an error. */
  function FromStrRadix(s: string, radix: nat, max: nat): (r: Option<nat>)
    requires 2 <= radix <= 36
    ensures r.Some? ==> r.value <= max
    ensures r.Some? ==> s != [] && s != "+"
  {
    if s == [] then None
    else if (s[0] == '+' || s[0] == '-') && |s| == 1 then None
    else
      var digits := if s[0] == '+' then s[1..] else s;
      match DigitsValue(digits, radix)
      case Some(v) => if v <= max then Some(v) else None
      case None => None
  }

  /** The lower-case digit character for `d`. */
  function DigitChar(d: nat): (c: char)
    requires d < 36
  {
    if d < 10 then ('0' as int + d) as char else ('a' as int + d - 10) as char
  }

  /** `n` written in `radix` without leading zeros (`"0"` for zero). */
  function Render(n: nat, radix: nat): (s: string)
    requires 2 <= radix <= 36
    ensures s != []
    decreases n
  {
    if n < radix then [DigitChar(n)] else Render(n / radix, radix) + [DigitChar(n % radix)]
  }

  lemma DigitCharValue(d: nat, radix: nat)
    requires 2 <= radix <= 36 && d < radix
    ensures ToDigit(DigitChar(d), radix) == Some(d)
    ensures DigitChar(d) != '+' && DigitChar(d) != '-'
    ensures DigitChar(d) == '0' <==> d == 0
  {
  }

  lemma DivMod(n: nat, radix: nat)
    requires 2 <= radix <= 36 && n >= radix
    ensures n == (n / radix) * radix + n % radix && n % radix < radix && n / radix < n
  {
  }

  lemma DigitsSnoc(p: string, c: char, radix: nat, q: nat, d: nat)
    requires 2 <= radix <= 36
    requires DigitsValue(p, radix) == Some(q) && ToDigit(c, radix) == Some(d)
    ensures DigitsValue(p + [c], radix) == Some(q * radix + d)
  {
    assert (p + [c])[..|p + [c]| - 1] == p;
  }

  /** The digits of a rendering have the rendered value. */
  lemma {:induction false} RenderValue(n: nat, radix: nat)
    requires 2 <= radix <= 36
    ensures DigitsValue(Render(n, radix), radix) == Some(n)
    decreases n
  {
    if n < radix {
      DigitCharValue(n, radix);
      assert Render(n, radix) == [] + [DigitChar(n)];
      DigitsSnoc([], DigitChar(n), radix, 0, n);
    } else {
      DivMod(n, radix);
      var q, d := n / radix, n % radix;
      RenderValue(q, radix);
      DigitCharValue(d, radix);
      DigitsSnoc(Render(q, radix), DigitChar(d), radix, q, d);
    }
  }

  /** Parsing undoes rendering: `from_str_radix(render(n))` is `n` whenever `n` fits. */
  lemma RenderRoundTrip(n: nat, radix: nat, max: nat)
    requires 2 <= radix <= 36 && n <= max
    ensures FromStrRadix(Render(n, radix), radix, max) == Some(n)
  {
    RenderValue(n, radix);
    RenderHead(n, radix);
  }

  /** A rendering starts with a digit, and with `0` only for zero itself. */
  lemma {:induction false} RenderHead(n: nat, radix: nat)
    requires 2 <= radix <= 36
    ensures Render(n, radix)[0] != '+' && Render(n, radix)[0] != '-'
    ensures Render(n, radix)[0] == '0' <==> n == 0
    decreases n
  {
    if n < radix {
      DigitCharValue(n, radix);
    } else {
      RenderHead(n / radix, radix);
    }
  }

  /** A rendering of more than one digit belongs to a number of at least the radix. */
  lemma RenderLong(n: nat, radix: nat)
    requires 2 <= radix <= 36 && |Render(n, radix)| > 1
    ensures n >= radix
  {
  }

  /** A rendering in a radix of at most ten uses only the decimal digit characters. */
  lemma {:induction false} RenderDigits(n: nat, radix: nat)
    requires 2 <= radix <= 10
    ensures forall c :: c in Render(n, radix) ==> '0' <= c <= '9'
    decreases n
  {
    if n < radix {
      DecimalDigitChar(n);
    } else {
      DivMod(n, radix);
      var q, d := n / radix, n % radix;
      RenderDigits(q, radix);
      DecimalDigitChar(d);
      var head, last := Render(q, radix), DigitChar(d);
      assert Render(n, radix) == head + [last];
      forall c | c in head + [last] ensures '0' <= c <= '9' {
        if c !in head {
          assert c == last;
        }
      }
    }
  }

  /** The digit character of a value below ten is a decimal digit. */
  lemma DecimalDigitChar(d: nat)
    requires d < 10
    ensures '0' <= DigitChar(d) <= '9'
  {
  }

}
