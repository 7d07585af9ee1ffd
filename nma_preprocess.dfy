/** The preprocessor of the syntax-tree-driven assembler (name-as/src/nma.rs,
    `preprocess`): comments and blank lines go, `.eqv NAME VALUE` lines define
    textual substitutions, and every other line is re-joined from its
    whitespace-separated tokens with each defined name replaced by its value. */
module NmaPreprocess {
  import opened Outcome
  import opened Text

  /** What one input line is, once trimmed and cut at its first `#`. */
  datatype LineKind =
    | Blank
    | Define(name: string, value: string)
    | MalformedDefine
    | Code(tokens: seq<string>)

  /** A line trimmed and cut before its first `#`. */
  function Uncommented(line: string): (r: string)
    ensures '#' !in r
    ensures r != [] ==> r[0] !in Whitespace
  {
    var t := Trim(line);
    match Find(t, '#')
    case Some(p) => t[..p]
    case None => t
  }

  /** Sorts a line; a `.eqv` line with fewer than three tokens is malformed
      (indexing its missing tokens panics). */
  function Classify(line: string): LineKind {
    var c := Uncommented(line);
    if c == [] then Blank
    else
      var tokens := Fields(c, Whitespace);
      if tokens[0] == ".eqv" then
        if |tokens| < 3 then MalformedDefine else Define(tokens[1], tokens[2])
      else Code(tokens)
  }

  /** What each kind of line means: a blank line has nothing left once trimmed
      and uncommented; the other kinds are told apart by the first token. */
  lemma ClassifyMeaning(line: string)
    ensures var k := Classify(line); var ts := Fields(Uncommented(line), Whitespace);
      && (k.Blank? <==> Uncommented(line) == [])
      && (!k.Blank? ==> ts != [] && (ts[0] == ".eqv" <==> !k.Code?))
      && (k.Code? ==> k.tokens == ts)
      && (k.Define? ==> |ts| >= 3 && k.name == ts[1] && k.value == ts[2])
      && (k.MalformedDefine? ==> |ts| < 3)
  {
  }

  /** Each token replaced once by its definition, if it has one. */
  function Substitute(tokens: seq<string>, eqv: map<string, string>): (r: seq<string>)
    ensures |r| == |tokens|
    ensures forall i :: 0 <= i < |tokens| ==> r[i] == if tokens[i] in eqv then eqv[tokens[i]] else tokens[i]
  {
    if tokens == [] then []
    else [if tokens[0] in eqv then eqv[tokens[0]] else tokens[0]] + Substitute(tokens[1..], eqv)
  }

  /** The output lines of `lines` when `eqv` holds the definitions made so far. */
  function ProcessFrom(lines: seq<string>, eqv: map<string, string>): (r: Result<seq<string>, string>)
    ensures !r.Err?
    ensures r.Ok? ==> |r.value| <= |lines|
    decreases |lines|
  {
    if lines == [] then Ok([])
    else match Classify(lines[0])
      case Blank => ProcessFrom(lines[1..], eqv)
      case MalformedDefine => Panic(".eqv needs a name and a value")
      case Define(name, value) => ProcessFrom(lines[1..], eqv[name := value])
      case Code(tokens) =>
        var rest :- ProcessFrom(lines[1..], eqv);
        Ok([Join(Substitute(tokens, eqv), " ")] + rest)
  }

  /** The lines of `done` ahead of those of `r`. */
  function Prepend(done: seq<string>, r: Result<seq<string>, string>): Result<seq<string>, string> {
    if r.Ok? then Ok(done + r.value) else r
  }

  /** The preprocessed program: the output lines joined with line feeds. */
  function PreprocessSpec(input: string): Result<string, string> {
    var out :- ProcessFrom(Lines(input), map[]);
    Ok(Join(out, "\n"))
  }

  /** The definitions after a line of kind `k`. */
  function NextEnv(k: LineKind, eqv: map<string, string>): map<string, string> {
    if k.Define? then eqv[k.name := k.value] else eqv
  }

  /** The lines written after a line of kind `k`. */
  function NextOut(k: LineKind, out: seq<string>, eqv: map<string, string>): seq<string> {
    if k.Code? then out + [Join(Substitute(k.tokens, eqv), " ")] else out
  }

  /** One step of the preprocessor, seen from the lines already written. */
  lemma PrependStep(out: seq<string>, lines: seq<string>, eqv: map<string, string>)
    requires lines != [] && !Classify(lines[0]).MalformedDefine?
    ensures var k := Classify(lines[0]);
      Prepend(out, ProcessFrom(lines, eqv)) == Prepend(NextOut(k, out, eqv), ProcessFrom(lines[1..], NextEnv(k, eqv)))
  {
    var k := Classify(lines[0]);
    if k.Code? {
      var line := Join(Substitute(k.tokens, eqv), " ");
      match ProcessFrom(lines[1..], eqv) {
        case Ok(rest) => assert out + ([line] + rest) == (out + [line]) + rest;
        case _ =>
      }
    }
  }

  /** `preprocess`: one pass over the lines, collecting definitions and output. */
  method Preprocess(input: string) returns (r: Result<string, string>)
    ensures r == PreprocessSpec(input)
    ensures !r.Err?
  {
    var lines := Lines(input);
    var out: seq<string> := [];
    var eqv: map<string, string> := map[];
    var i := 0;
    assert lines[i..] == lines;
    match ProcessFrom(lines, eqv) {
      case Ok(all) => assert out + all == all;
      case _ =>
    }
    while i < |lines|
      invariant 0 <= i <= |lines|
      invariant ProcessFrom(lines, map[]) == Prepend(out, ProcessFrom(lines[i..], eqv))
    {
      var kind := Classify(lines[i]);
      assert lines[i..][0] == lines[i] && lines[i..][1..] == lines[i + 1..];
      if !kind.MalformedDefine? {
        PrependStep(out, lines[i..], eqv);
      }
      match kind {
        case Blank =>
        case MalformedDefine =>
          return Panic(".eqv needs a name and a value");
        case Define(name, value) =>
          eqv := eqv[name := value];
        case Code(tokens) =>
          out := out + [Join(Substitute(tokens, eqv), " ")];
      }
      i := i + 1;
    }
    assert lines[i..] == [] && out + [] == out;
    return Ok(Join(out, "\n"));
  }

  /** A token as the preprocessor writes it: non-empty, no whitespace, no `#`. */
  ghost predicate Token(t: string) {
    t != [] && SeparatorFree(t, Whitespace) && '#' !in t
  }

  /** Definitions whose values are tokens. */
  ghost predicate CleanEnv(eqv: map<string, string>) {
    forall name :: name in eqv ==> Token(eqv[name])
  }

  /** A line as the preprocessor writes it: tokens separated by single spaces,
      with no comment, no line break and nothing to trim. */
  ghost predicate CleanLine(l: string) {
    var ts := Fields(l, Whitespace);
    && ts != [] && l == Join(ts, " ")
    && l != [] && l[0] !in Whitespace && l[|l| - 1] !in Whitespace
    && '#' !in l && '\n' !in l
  }

  /** The tokens a line is split into, and the value a definition gives, are tokens. */
  lemma ClassifiedTokens(line: string)
    ensures Classify(line).Code? ==> forall k :: 0 <= k < |Classify(line).tokens| ==> Token(Classify(line).tokens[k])
    ensures Classify(line).Define? ==> Token(Classify(line).value)
  {
    ClassifyMeaning(line);
    FieldsAvoid(Uncommented(line), Whitespace, '#');
  }

  /** Tokens joined with single spaces neither start nor end with white space. */
  lemma JoinedEdges(parts: seq<string>)
    requires parts != [] && forall k :: 0 <= k < |parts| ==> Token(parts[k])
    ensures var line := Join(parts, " ");
      line != [] && line[0] !in Whitespace && line[|line| - 1] !in Whitespace
  {
    JoinEnds(parts, " ");
    assert Token(parts[0]) && Token(parts[|parts| - 1]);
  }

  /** Tokens joined with single spaces make a clean line that splits back into them. */
  lemma JoinedTokens(parts: seq<string>)
    requires parts != [] && forall k :: 0 <= k < |parts| ==> Token(parts[k])
    ensures CleanLine(Join(parts, " ")) && Fields(Join(parts, " "), Whitespace) == parts
  {
    FieldsOfJoin(parts, ' ', Whitespace);
    JoinAvoids(parts, " ", '#');
    JoinAvoids(parts, " ", '\n');
    JoinedEdges(parts);
  }

  /** A code line, once its tokens are substituted, is written as a clean line
      whose tokens are the substituted ones. */
  lemma CodeLineClean(tokens: seq<string>, eqv: map<string, string>)
    requires tokens != [] && forall k :: 0 <= k < |tokens| ==> Token(tokens[k])
    requires CleanEnv(eqv)
    ensures var subst := Substitute(tokens, eqv);
      CleanLine(Join(subst, " ")) && Fields(Join(subst, " "), Whitespace) == subst
  {
    JoinedTokens(Substitute(tokens, eqv));
  }

  /** The lines of `lines` after the first, which keep the property of having
      no definition with the value `.eqv`. */
  lemma NoEqvValueTail(lines: seq<string>)
    requires lines != [] && NoEqvValue(lines)
    ensures NoEqvValue(lines[1..])
    ensures Classify(lines[0]).Define? ==> Classify(lines[0]).value != ".eqv"
  {
    forall i | 0 <= i < |lines[1..]| ensures lines[1..][i] == lines[i + 1] { }
  }

  /** Every line of a successful result is clean. */
  ghost predicate AllClean(r: Result<seq<string>, string>) {
    r.Ok? ==> forall k :: 0 <= k < |r.value| ==> CleanLine(r.value[k])
  }

  /** Every line of a successful result is clean and starts with a token other than `.eqv`. */
  ghost predicate AllReprocessable(r: Result<seq<string>, string>) {
    r.Ok? ==> forall k :: 0 <= k < |r.value| ==> CleanLine(r.value[k]) && Fields(r.value[k], Whitespace)[0] != ".eqv"
  }

  /** The result after a code line: that line ahead of the rest. */
  lemma CodeStep(lines: seq<string>, eqv: map<string, string>)
    requires lines != [] && Classify(lines[0]).Code?
    ensures ProcessFrom(lines, eqv) == Prepend([Join(Substitute(Classify(lines[0]).tokens, eqv), " ")], ProcessFrom(lines[1..], eqv))
  {
  }

  lemma PrependClean(line: string, r: Result<seq<string>, string>)
    requires CleanLine(line) && AllClean(r)
    ensures AllClean(Prepend([line], r))
  {
    if r.Ok? {
      forall k | 0 <= k < |[line] + r.value| ensures CleanLine(([line] + r.value)[k]) {
        if k > 0 {
          assert ([line] + r.value)[k] == r.value[k - 1];
        }
      }
    }
  }

  lemma PrependReprocessable(line: string, r: Result<seq<string>, string>)
    requires CleanLine(line) && Fields(line, Whitespace)[0] != ".eqv" && AllReprocessable(r)
    ensures AllReprocessable(Prepend([line], r))
  {
    if r.Ok? {
      forall k | 0 <= k < |[line] + r.value|
        ensures CleanLine(([line] + r.value)[k]) && Fields(([line] + r.value)[k], Whitespace)[0] != ".eqv"
      {
        if k > 0 {
          assert ([line] + r.value)[k] == r.value[k - 1];
        }
      }
    }
  }

  /** Definitions whose values are tokens stay so when one more is made. */
  lemma DefineClean(eqv: map<string, string>, name: string, value: string)
    requires CleanEnv(eqv) && Token(value)
    ensures CleanEnv(eqv[name := value])
  {
  }

  /** Every line the preprocessor writes is clean. */
  lemma {:induction false} OutputClean(lines: seq<string>, eqv: map<string, string>)
    requires CleanEnv(eqv)
    ensures AllClean(ProcessFrom(lines, eqv))
    decreases |lines|
  {
    if lines != [] {
      ClassifiedTokens(lines[0]);
      ClassifyMeaning(lines[0]);
      match Classify(lines[0])
      case Blank => OutputClean(lines[1..], eqv);
      case MalformedDefine =>
      case Define(name, value) =>
        DefineClean(eqv, name, value);
        OutputClean(lines[1..], eqv[name := value]);
      case Code(tokens) =>
        CodeLineClean(tokens, eqv);
        OutputClean(lines[1..], eqv);
        CodeStep(lines, eqv);
        PrependClean(Join(Substitute(tokens, eqv), " "), ProcessFrom(lines[1..], eqv));
    }
  }

  /** When no definition has the value `.eqv`, every written line is clean and
      none starts with `.eqv`. */
  lemma {:induction false} OutputReprocessable(lines: seq<string>, eqv: map<string, string>)
    requires CleanEnv(eqv) && NoEqvValue(lines) && ".eqv" !in eqv.Values
    ensures AllReprocessable(ProcessFrom(lines, eqv))
    decreases |lines|
  {
    if lines != [] {
      ClassifiedTokens(lines[0]);
      ClassifyMeaning(lines[0]);
      NoEqvValueTail(lines);
      match Classify(lines[0])
      case Blank => OutputReprocessable(lines[1..], eqv);
      case MalformedDefine =>
      case Define(name, value) =>
        DefineClean(eqv, name, value);
        OutputReprocessable(lines[1..], eqv[name := value]);
      case Code(tokens) =>
        CodeLineClean(tokens, eqv);
        OutputReprocessable(lines[1..], eqv);
        if tokens[0] in eqv {
          assert eqv[tokens[0]] in eqv.Values;
        }
        CodeStep(lines, eqv);
        PrependReprocessable(Join(Substitute(tokens, eqv), " "), ProcessFrom(lines[1..], eqv));
    }
  }

  /** No definition in `lines` gives the value `.eqv`. */
  ghost predicate NoEqvValue(lines: seq<string>) {
    forall i :: 0 <= i < |lines| ==> Classify(lines[i]).Define? ==> Classify(lines[i]).value != ".eqv"
  }

  /** Clean lines that do not start with `.eqv` pass through unchanged. */
  lemma {:induction false} ReprocessClean(out: seq<string>)
    requires forall k :: 0 <= k < |out| ==> CleanLine(out[k]) && Fields(out[k], Whitespace)[0] != ".eqv"
    ensures ProcessFrom(out, map[]) == Ok(out)
    decreases |out|
  {
    if out != [] {
      ReprocessLine(out[0]);
      ReprocessClean(out[1..]);
      CodeStep(out, map[]);
      assert out == [out[0]] + out[1..];
    }
  }

  /** A clean line that does not start with `.eqv` is code that is written back unchanged. */
  lemma ReprocessLine(l: string)
    requires CleanLine(l) && Fields(l, Whitespace)[0] != ".eqv"
    ensures Classify(l).Code? && Join(Substitute(Classify(l).tokens, map[]), " ") == l
  {
    TrimClean(l);
    assert Uncommented(l) == l;
    ClassifyMeaning(l);
    var ts := Fields(l, Whitespace);
    assert Classify(l) == Code(ts);
    assert Substitute(ts, map[]) == ts;
  }

  /** Preprocessing is idempotent: its output, preprocessed again, is unchanged,
      unless a definition turns a line's first token into `.eqv`. */
  lemma PreprocessIdempotent(input: string)
    requires NoEqvValue(Lines(input))
    ensures PreprocessSpec(input).Ok? ==> PreprocessSpec(PreprocessSpec(input).value) == PreprocessSpec(input)
  {
    var lines := Lines(input);
    OutputReprocessable(lines, map[]);
    if ProcessFrom(lines, map[]).Ok? {
      var out := ProcessFrom(lines, map[]).value;
      LinesOfJoin(out);
      ReprocessClean(out);
    }
  }

  /** The preprocessed text holds no comment and splits into clean lines. */
  lemma PreprocessedText(input: string)
    ensures PreprocessSpec(input).Ok? ==>
      var text := PreprocessSpec(input).value;
      '#' !in text && forall k :: 0 <= k < |Lines(text)| ==> CleanLine(Lines(text)[k])
  {
    var lines := Lines(input);
    OutputClean(lines, map[]);
    if ProcessFrom(lines, map[]).Ok? {
      var out := ProcessFrom(lines, map[]).value;
      JoinAvoids(out, "\n", '#');
      LinesOfJoin(out);
    }
  }

  /** Of two consecutive definitions of the same name, the later one is in force. */
  lemma LaterDefinitionWins(lines: seq<string>, eqv: map<string, string>, name: string, v1: string, v2: string)
    requires |lines| >= 2 && Classify(lines[0]) == Define(name, v1) && Classify(lines[1]) == Define(name, v2)
    ensures ProcessFrom(lines, eqv) == ProcessFrom(lines[2..], eqv[name := v2])
  {
    DefineStep(lines, eqv);
    assert lines[1..][0] == lines[1] && lines[1..][1..] == lines[2..];
    DefineStep(lines[1..], eqv[name := v1]);
    Overwrite(eqv, name, v1, v2);
  }

  lemma Overwrite(eqv: map<string, string>, name: string, v1: string, v2: string)
    ensures eqv[name := v1][name := v2] == eqv[name := v2]
  {
  }

  /** The result after a definition: the rest, with the definition in force. */
  lemma DefineStep(lines: seq<string>, eqv: map<string, string>)
    requires lines != [] && Classify(lines[0]).Define?
    ensures ProcessFrom(lines, eqv) == ProcessFrom(lines[1..], eqv[Classify(lines[0]).name := Classify(lines[0]).value])
  {
  }
}
