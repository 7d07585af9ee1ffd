/** The few `str` operations of the Rust standard library that the assemblers
    rely on, over strings as sequences of Unicode scalar values. */
module Text {
  import opened Outcome

  /** `char::is_whitespace`: the characters with the Unicode White_Space property. */
  const Whitespace: set<char> := {
    '\t', '\n', '\U{000B}', '\U{000C}', '\r', ' ', '\U{0085}', '\U{00A0}', '\U{1680}',
    '\U{2000}', '\U{2001}', '\U{2002}', '\U{2003}', '\U{2004}', '\U{2005}', '\U{2006}',
    '\U{2007}', '\U{2008}', '\U{2009}', '\U{200A}', '\U{2028}', '\U{2029}', '\U{202F}',
    '\U{205F}', '\U{3000}'
  }

  /** `str::trim_start`: drops the longest all-whitespace prefix. */
  function TrimStart(s: string): (r: string)
    ensures |r| <= |s| && r == s[|s| - |r|..]
    ensures forall i :: 0 <= i < |s| - |r| ==> s[i] in Whitespace
    ensures r != [] ==> r[0] !in Whitespace
  {
    if s != [] && s[0] in Whitespace then TrimStart(s[1..]) else s
  }

  /** `str::trim_end`: drops the longest all-whitespace suffix. */
  function TrimEnd(s: string): (r: string)
    ensures |r| <= |s| && r == s[..|r|]
    ensures forall i :: |r| <= i < |s| ==> s[i] in Whitespace
    ensures r != [] ==> r[|r| - 1] !in Whitespace
  {
    if s != [] && s[|s| - 1] in Whitespace then TrimEnd(s[..|s| - 1]) else s
  }

  /** `str::trim`. */
  function Trim(s: string): (r: string)
    ensures r != [] ==> r[0] !in Whitespace && r[|r| - 1] !in Whitespace
  {
    TrimEnd(TrimStart(s))
  }

  /** `str::find` for a single character: the index of its first occurrence. */
  function Find(s: string, c: char): (r: Option<nat>)
    ensures r.Some? ==> r.value < |s| && s[r.value] == c && c !in s[..r.value]
    ensures r.None? ==> c !in s
  {
    if s == [] then None
    else if s[0] == c then Some(0)
    else match Find(s[1..], c)
      case None => None
      case Some(i) =>
        assert s[..i + 1] == [s[0]] + s[1..][..i];
        Some(i + 1)
  }

  /** Strips one trailing carriage return. */
  function StripCr(s: string): string {
    if s != [] && s[|s| - 1] == '\r' then s[..|s| - 1] else s
  }

  /** `str::lines`: splits after every line feed, drops the line feed and a
      carriage return just before it; a final line ending is optional. */
  function Lines(s: string): (r: seq<string>)
    ensures forall k :: 0 <= k < |r| ==> '\n' !in r[k]
  {
    if s == [] then []
    else match Find(s, '\n')
      case None => [s]
      case Some(i) => [StripCr(s[..i])] + Lines(s[i + 1..])
  }

  /** The length of the longest prefix of `s` free of separators. */
  function RunLength(s: string, seps: set<char>): (n: nat)
    ensures n <= |s|
    ensures forall i :: 0 <= i < n ==> s[i] !in seps
    ensures n < |s| ==> s[n] in seps
  {
    if s == [] || s[0] in seps then 0 else 1 + RunLength(s[1..], seps)
  }

  /** `s.split(seps).filter(|t| !t.is_empty())`, and also `split_whitespace`
      when `seps` is `Whitespace`: the maximal separator-free pieces, in order. */
  function Fields(s: string, seps: set<char>): (r: seq<string>)
    ensures forall k :: 0 <= k < |r| ==> r[k] != [] && SeparatorFree(r[k], seps)
    decreases |s|
  {
    if s == [] then []
    else if s[0] in seps then Fields(s[1..], seps)
    else
      var n := RunLength(s, seps);
      [s[..n]] + Fields(s[n..], seps)
  }

  ghost predicate SeparatorFree(t: string, seps: set<char>) {
    forall i :: 0 <= i < |t| ==> t[i] !in seps
  }

  /** The characters of `s` that are not separators, in order. */
  function Kept(s: string, seps: set<char>): string {
    if s == [] then [] else (if s[0] in seps then [] else [s[0]]) + Kept(s[1..], seps)
  }

  /** Concatenation of all parts. */
  function Concat(parts: seq<string>): string {
    if parts == [] then [] else parts[0] + Concat(parts[1..])
  }

  /** `parts.join(sep)`. */
  function Join(parts: seq<string>, sep: string): string {
    if parts == [] then []
    else if |parts| == 1 then parts[0]
    else parts[0] + sep + Join(parts[1..], sep)
  }

  lemma {:induction false} KeptAppend(a: string, b: string, seps: set<char>)
    ensures Kept(a + b, seps) == Kept(a, seps) + Kept(b, seps)
  {
    if a == [] {
      assert a + b == b;
    } else {
      assert (a + b)[1..] == a[1..] + b;
      KeptAppend(a[1..], b, seps);
    }
  }

  lemma {:induction false} KeptSeparatorFree(t: string, seps: set<char>)
    requires SeparatorFree(t, seps)
    ensures Kept(t, seps) == t
  {
    if t != [] {
      KeptSeparatorFree(t[1..], seps);
    }
  }

  /** Splitting loses exactly the separators: the fields, put back together,
      are the non-separator characters of the input in their original order. */
  lemma {:induction false} FieldsKeepContent(s: string, seps: set<char>)
    ensures Concat(Fields(s, seps)) == Kept(s, seps)
    decreases |s|
  {
    if s == [] {
    } else if s[0] in seps {
      FieldsKeepContent(s[1..], seps);
    } else {
      var n := RunLength(s, seps);
      FieldsKeepContent(s[n..], seps);
      assert s == s[..n] + s[n..];
      KeptAppend(s[..n], s[n..], seps);
      KeptSeparatorFree(s[..n], seps);
    }
  }

  /** Joining non-empty, separator-free pieces with one separator and splitting
      again gives the pieces back. */
  lemma {:induction false} FieldsOfJoin(parts: seq<string>, c: char, seps: set<char>)
    requires c in seps
    requires forall k :: 0 <= k < |parts| ==> parts[k] != [] && SeparatorFree(parts[k], seps)
    ensures Fields(Join(parts, [c]), seps) == parts
    decreases |parts|
  {
    if parts == [] {
    } else {
      var p := parts[0];
      var s := Join(parts, [c]);
      RunOfPiece(p, if |parts| == 1 then [] else [c] + Join(parts[1..], [c]), seps);
      if |parts| == 1 {
        assert s == p + [];
        assert s[|p|..] == [];
      } else {
        var tail := Join(parts[1..], [c]);
        assert s == p + ([c] + tail);
        assert s[|p|..] == [c] + tail;
        assert ([c] + tail)[1..] == tail;
        FieldsOfJoin(parts[1..], c, seps);
      }
    }
  }

  lemma {:induction false} RunOfPiece(p: string, rest: string, seps: set<char>)
    requires p != [] && SeparatorFree(p, seps)
    requires rest == [] || rest[0] in seps
    ensures RunLength(p + rest, seps) == |p|
    decreases |p|
  {
    if |p| > 1 {
      assert (p + rest)[1..] == p[1..] + rest;
      RunOfPiece(p[1..], rest, seps);
    } else {
      assert (p + rest)[1..] == rest;
    }
  }

  /** A string with no whitespace at either end is its own trimming. */
  lemma TrimClean(s: string)
    requires s != [] && s[0] !in Whitespace && s[|s| - 1] !in Whitespace
    ensures Trim(s) == s
  {
  }

  /** A character absent from `s` is absent from each of its fields. */
  lemma {:induction false} FieldsAvoid(s: string, seps: set<char>, c: char)
    requires c !in s
    ensures forall k :: 0 <= k < |Fields(s, seps)| ==> c !in Fields(s, seps)[k]
    decreases |s|
  {
    if s == [] {
    } else if s[0] in seps {
      FieldsAvoid(s[1..], seps, c);
    } else {
      var n := RunLength(s, seps);
      assert forall i :: 0 <= i < n ==> s[..n][i] == s[i];
      FieldsAvoid(s[n..], seps, c);
    }
  }

  /** A character in neither the parts nor the separator is not in their join. */
  lemma {:induction false} JoinAvoids(parts: seq<string>, sep: string, c: char)
    requires c !in sep
    requires forall k :: 0 <= k < |parts| ==> c !in parts[k]
    ensures c !in Join(parts, sep)
    decreases |parts|
  {
    if |parts| > 1 {
      JoinAvoids(parts[1..], sep, c);
    }
  }

  /** A join starts where its first part starts and ends where its last part ends. */
  lemma {:induction false} JoinEnds(parts: seq<string>, sep: string)
    requires parts != [] && forall k :: 0 <= k < |parts| ==> parts[k] != []
    ensures var j := Join(parts, sep);
      j != [] && j[0] == parts[0][0] && j[|j| - 1] == parts[|parts| - 1][|parts[|parts| - 1]| - 1]
    decreases |parts|
  {
    if |parts| > 1 {
      JoinEnds(parts[1..], sep);
    }
  }

  /** When `a` does not hold `c`, the first `c` of `a + [c] + b` is the one right after `a`. */
  lemma {:induction false} FindAfter(a: string, c: char, b: string)
    requires c !in a
    ensures Find(a + [c] + b, c) == Some(|a|)
    decreases |a|
  {
    if a == [] {
    } else {
      assert (a + [c] + b)[1..] == a[1..] + [c] + b;
      FindAfter(a[1..], c, b);
    }
  }

  /** Lines joined with line feeds split back into the same lines, as long as
      none is empty, holds a line feed or ends in a carriage return. */
  lemma {:induction false} LinesOfJoin(parts: seq<string>)
    requires forall k :: 0 <= k < |parts| ==>
      parts[k] != [] && '\n' !in parts[k] && parts[k][|parts[k]| - 1] != '\r'
    ensures Lines(Join(parts, "\n")) == parts
    decreases |parts|
  {
    if |parts| == 1 {
    } else if |parts| > 1 {
      var rest := Join(parts[1..], "\n");
      var s := parts[0] + "\n" + rest;
      FindAfter(parts[0], '\n', rest);
      assert s[..|parts[0]|] == parts[0];
      assert s[|parts[0]| + 1..] == rest;
      LinesOfJoin(parts[1..]);
      assert Lines(s) == [parts[0]] + parts[1..];
    }
  }
}
