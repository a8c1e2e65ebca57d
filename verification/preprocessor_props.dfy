/** What the macro preprocessor does with plain text and with each directive. */
module PreprocessorProps {
  import opened Types
  import opened Errors
  import opened Preprocessor

  /** No white space (newlines included) in `w`. */
  predicate NoSpace(w: string) {
    forall i :: 0 <= i < |w| ==> !IsSpace(w[i] as int)
  }

  /** `w` is one whole word as the `Start` and `Id` states read it: it starts
      with a visible character other than `$` and goes on with word characters. */
  predicate IsWord(w: string) {
    && |w| > 0 && IsChar(w[0] as int) && w[0] != '$'
    && forall i :: 1 <= i < |w| ==> IsWordChar(w[i] as int)
  }

  /** Reference expansion of text without directives: each word is replaced
      by its definition, if any, and every other character is copied. */
  function Expand(s: string, defs: Defs): (e: string)
    decreases |s|
  {
    if |s| == 0 then []
    else if IsChar(s[0] as int) then
      var n := 1 + WordLen(s[1..]);
      Substitute(s[..n], defs) + Expand(s[n..], defs)
    else [s[0]] + Expand(s[1..], defs)
  }

  // ---------------------------------------------------------------------------
  // Words

  /** The run of word characters is determined by where it stops. */
  lemma {:induction false} WordLenOf(w: string, rest: string)
    requires forall i :: 0 <= i < |w| ==> IsWordChar(w[i] as int)
    requires !IsWordChar(Peek(rest))
    decreases |w|
    ensures WordLen(w + rest) == |w|
  {
    if |w| > 0 {
      assert (w + rest)[1..] == w[1..] + rest;
      WordLenOf(w[1..], rest);
    } else {
      assert w + rest == rest;
    }
  }

  /** A word at the head of the input is read up to the first character
      that cannot continue it, and written replaced or copied. */
  lemma WordAt(s: string, defs: Defs)
    requires |s| > 0 && IsChar(s[0] as int) && s[0] != '$'
    ensures var n := 1 + WordLen(s[1..]);
      n <= |s| && GetToken(s, defs) == Scanned(Plain, Substitute(s[..n], defs), s[n..])
  {
    var n := 1 + WordLen(s[1..]);
    ShiftPrefix([], s, n);
    assert [] + [s[0]] == [s[0]] && [] + s[..n] == s[..n];
  }

  /** After a plain token the run goes on from where the token ended. */
  lemma PreprocessPlain(s: string, defs: Defs, f: Opener)
    requires GetToken(s, defs).Scanned? && GetToken(s, defs).d.Plain?
    ensures var t := GetToken(s, defs);
      Preprocess(s, defs, f) == Then(t.out, Preprocess(t.rest, defs, f))
  {
  }

  /** A whole word is written once, replaced by its definition if it has one;
      the replacement text is not scanned again. */
  lemma {:induction false} WordReplacedOnce(w: string, rest: string, defs: Defs, f: Opener)
    requires IsWord(w) && !IsWordChar(Peek(rest))
    ensures Preprocess(w + rest, defs, f) == Then(Substitute(w, defs), Preprocess(rest, defs, f))
  {
    var s := w + rest;
    assert s[1..] == w[1..] + rest;
    WordLenOf(w[1..], rest);
    WordAt(s, defs);
    assert s[..|w|] == w && s[|w|..] == rest;
    PreprocessPlain(s, defs, f);
  }

  /** With `A` defined as `B` and `B` as `C`, the text `A` becomes `B`. */
  lemma NotRescanned(f: Opener)
    ensures Preprocess("A", map["A" := "B", "B" := "C"], f).out == "B"
  {
    WordReplacedOnce("A", [], map["A" := "B", "B" := "C"], f);
    assert "A" + [] == "A";
  }

  /** A character that cannot start a word is copied and the run goes on. */
  lemma {:induction false} PreprocessSkip(s: string, defs: Defs, f: Opener)
    requires |s| > 0 && !IsChar(s[0] as int)
    ensures Preprocess(s, defs, f) == Then([s[0]], Preprocess(s[1..], defs, f))
  {
    match GetToken(s[1..], defs)
    case Thrown(out, msg) => SkipStop(s, defs, f);
    case Scanned(d, out, rest) =>
      match d
      case EndOfInput => SkipStop(s, defs, f);
      case Plain => SkipPlain(s, defs, f);
      case Define(name, value) => SkipDefine(s, defs, f);
      case Include(file) => SkipInclude(s, defs, f);
  }

  lemma SkipStop(s: string, defs: Defs, f: Opener)
    requires |s| > 0 && !IsChar(s[0] as int)
    requires var t := GetToken(s[1..], defs); t.Thrown? || t.d.EndOfInput?
    ensures Preprocess(s, defs, f) == Then([s[0]], Preprocess(s[1..], defs, f))
  {
  }

  lemma SkipPlain(s: string, defs: Defs, f: Opener)
    requires |s| > 0 && !IsChar(s[0] as int)
    requires var t := GetToken(s[1..], defs); t.Scanned? && t.d.Plain?
    ensures Preprocess(s, defs, f) == Then([s[0]], Preprocess(s[1..], defs, f))
  {
    var t := GetToken(s[1..], defs);
    var r := Preprocess(t.rest, defs, f);
    assert [s[0]] + t.out + r.out == [s[0]] + (t.out + r.out);
  }

  lemma SkipDefine(s: string, defs: Defs, f: Opener)
    requires |s| > 0 && !IsChar(s[0] as int)
    requires var t := GetToken(s[1..], defs); t.Scanned? && t.d.Define?
    ensures Preprocess(s, defs, f) == Then([s[0]], Preprocess(s[1..], defs, f))
  {
    var t := GetToken(s[1..], defs);
    var r := Preprocess(t.rest, defs[t.d.name := t.d.value], f);
    assert [s[0]] + t.out + r.out == [s[0]] + (t.out + r.out);
  }

  lemma SkipInclude(s: string, defs: Defs, f: Opener)
    requires |s| > 0 && !IsChar(s[0] as int)
    requires var t := GetToken(s[1..], defs); t.Scanned? && t.d.Include?
    ensures Preprocess(s, defs, f) == Then([s[0]], Preprocess(s[1..], defs, f))
  {
    var t := GetToken(s[1..], defs);
    match f(t.d.file, defs)
    case None =>
    case Some(result) =>
      var r := Preprocess(t.rest, result.1, f);
      assert [s[0]] + t.out + result.0 + r.out == [s[0]] + (t.out + result.0 + r.out);
  }

  /** Text without directives is expanded word by word, and the definitions
      are left as they were. */
  lemma {:induction false} ExpandsWithoutDirectives(s: string, defs: Defs, f: Opener)
    requires '$' !in s
    decreases |s|
    ensures Preprocess(s, defs, f) == Expanded(Expand(s, defs), defs, None)
  {
    if |s| == 0 {
    } else if IsChar(s[0] as int) {
      var n := 1 + WordLen(s[1..]);
      assert s[0] in s;
      WordStep(s, defs, f);
      NotInSuffix(s, n, '$');
      ExpandsWithoutDirectives(s[n..], defs, f);
    } else {
      OtherStep(s, defs, f);
      NotInSuffix(s, 1, '$');
      ExpandsWithoutDirectives(s[1..], defs, f);
    }
  }

  /** A word moves the run and the reference expansion on by the same text. */
  lemma WordStep(s: string, defs: Defs, f: Opener)
    requires |s| > 0 && IsChar(s[0] as int) && s[0] != '$'
    ensures var n := 1 + WordLen(s[1..]);
      n <= |s|
      && Preprocess(s, defs, f) == Then(Substitute(s[..n], defs), Preprocess(s[n..], defs, f))
      && Expand(s, defs) == Substitute(s[..n], defs) + Expand(s[n..], defs)
  {
    var n := 1 + WordLen(s[1..]);
    WordAt(s, defs);
    PreprocessPlain(s, defs, f);
    ExpandWord(s, n, defs);
  }

  /** So does a character that cannot start a word. */
  lemma OtherStep(s: string, defs: Defs, f: Opener)
    requires |s| > 0 && !IsChar(s[0] as int)
    ensures Preprocess(s, defs, f) == Then([s[0]], Preprocess(s[1..], defs, f))
      && Expand(s, defs) == [s[0]] + Expand(s[1..], defs)
  {
    PreprocessSkip(s, defs, f);
    ExpandOther(s, defs);
  }

  lemma NotInSuffix(s: string, k: nat, c: char)
    requires c !in s && k <= |s|
    ensures c !in s[k..]
  {
    assert forall i :: 0 <= i < |s| - k ==> s[k..][i] == s[k + i];
  }

  /** One word of the reference expansion. */
  lemma {:induction false} ExpandWord(s: string, n: nat, defs: Defs)
    requires |s| > 0 && IsChar(s[0] as int) && n == 1 + WordLen(s[1..])
    ensures n <= |s| && Expand(s, defs) == Substitute(s[..n], defs) + Expand(s[n..], defs)
  {
  }

  /** One character that cannot start a word, in the reference expansion. */
  lemma {:induction false} ExpandOther(s: string, defs: Defs)
    requires |s| > 0 && !IsChar(s[0] as int)
    ensures Expand(s, defs) == [s[0]] + Expand(s[1..], defs)
  {
  }

  /** With no definitions, expansion is the identity. */
  lemma {:induction false} ExpandIdentity(s: string)
    decreases |s|
    ensures Expand(s, map[]) == s
  {
    if |s| == 0 {
    } else if IsChar(s[0] as int) {
      var n := 1 + WordLen(s[1..]);
      var w, x := s[..n], s[n..];
      ExpandWord(s, n, map[]);
      ExpandIdentity(x);
      assert Substitute(w, map[]) == w;
      assert w + x == s;
    } else {
      ExpandOther(s, map[]);
      ExpandIdentity(s[1..]);
      assert [s[0]] + s[1..] == s;
    }
  }

  // ---------------------------------------------------------------------------
  // Directives

  /** The `Cmd` state reads everything up to white space. */
  lemma {:induction false} CmdReads(buf: string, w: string, rest: string)
    requires NoSpace(w)
    decreases |w|
    ensures Cmd(buf, w + rest) == Cmd(buf + w, rest)
  {
    if |w| > 0 {
      assert (w + rest)[1..] == w[1..] + rest;
      CmdReads(buf + [w[0]], w[1..], rest);
      assert buf + [w[0]] + w[1..] == buf + w;
    } else {
      assert w + rest == rest && buf + w == buf;
    }
  }

  /** `$`, a command word and white space: `inc` and `def` go on to their
      directive and any other word is refused. */
  lemma {:induction false} CommandRead(w: string, x: string, defs: Defs)
    requires NoSpace(w)
    ensures GetToken("$" + w + " " + x, defs)
         == match ParseCmd(w)
            case Inc => IncStart(x)
            case Def => DefNameStart(x)
            case Null => Thrown([], UnexpectedCommand)
  {
    var s := "$" + w + " " + x;
    assert s[1..] == w + (" " + x);
    CmdReads([], w, " " + x);
    assert [] + w == w && (" " + x)[1..] == x;
  }

  /** A command word that the input ends in is reported. */
  lemma {:induction false} CommandUnterminated(w: string, defs: Defs)
    requires NoSpace(w)
    ensures GetToken("$" + w, defs) == Thrown([], UnterminatedCommand)
  {
    assert ("$" + w)[1..] == w + [];
    CmdReads([], w, []);
  }

  /** An unknown directive stops the run with nothing written. */
  lemma UnknownCommandStops(w: string, x: string, defs: Defs, f: Opener)
    requires NoSpace(w) && w != "inc" && w != "def"
    ensures Preprocess("$" + w + " " + x, defs, f) == Expanded([], defs, Some(UnexpectedCommand))
  {
    CommandRead(w, x, defs);
  }

  /** The `DefVarId` state reads a name up to white space. */
  lemma {:induction false} DefNameReads(buf: string, w: string, rest: string)
    requires NoSpace(w)
    decreases |w|
    ensures DefName(buf, w + rest) == DefName(buf + w, rest)
  {
    if |w| > 0 {
      assert (w + rest)[1..] == w[1..] + rest;
      DefNameReads(buf + [w[0]], w[1..], rest);
      assert buf + [w[0]] + w[1..] == buf + w;
    } else {
      assert w + rest == rest && buf + w == buf;
    }
  }

  /** The same for the state as written. */
  lemma {:induction false} DefNameAsWrittenReads(buf: string, w: string, rest: string)
    requires NoSpace(w)
    decreases |w|
    ensures DefNameAsWritten(buf, w + rest) == DefNameAsWritten(buf + w, rest)
  {
    if |w| > 0 {
      assert (w + rest)[1..] == w[1..] + rest;
      DefNameAsWrittenReads(buf + [w[0]], w[1..], rest);
      assert buf + [w[0]] + w[1..] == buf + w;
    } else {
      assert w + rest == rest && buf + w == buf;
    }
  }

  /** A value is the rest of its line, and the newline is consumed. */
  lemma ValueRead(name: string, value: string, rest: string)
    requires |value| > 0 && !IsSpace(value[0] as int) && '\n' !in value
    ensures DefValueStart(name, value + "\n" + rest) == Scanned(Define(name, value), [], rest)
  {
    var s := value + "\n" + rest;
    assert s == value + ("\n" + rest);
    LineEndOf(value, "\n" + rest);
    assert DefValueStart(name, s) == DefValue(name, [], s);
    assert [] + s[..|value|] == value && s[|value| + 1..] == rest;
  }

  /** The line ends at the first newline. */
  lemma {:induction false} LineEndOf(line: string, rest: string)
    requires '\n' !in line && |rest| > 0 && rest[0] == '\n'
    decreases |line|
    ensures LineEnd(line + rest) == |line|
  {
    if |line| > 0 {
      assert (line + rest)[1..] == line[1..] + rest;
      LineEndOf(line[1..], rest);
    } else {
      assert line + rest == rest;
    }
  }

  /** `$def NAME VALUE` on a line of its own defines NAME as VALUE. */
  lemma {:induction false} DefineDirective(name: string, value: string, rest: string, defs: Defs)
    requires |name| > 0 && NoSpace(name)
    requires |value| > 0 && !IsSpace(value[0] as int) && '\n' !in value
    ensures GetToken("$def " + name + " " + value + "\n" + rest, defs) == Scanned(Define(name, value), [], rest)
  {
    var x := name + (" " + (value + "\n" + rest));
    assert "$def " + name + " " + value + "\n" + rest == "$" + "def" + " " + x;
    CommandRead("def", x, defs);
    DefNameReads([], name, " " + (value + "\n" + rest));
    assert [] + name == name;
    ValueRead(name, value, rest);
  }

  /** The run goes on after a definition with the definition entered. */
  lemma PreprocessDefine(name: string, value: string, rest: string, defs: Defs, f: Opener)
    requires |name| > 0 && NoSpace(name)
    requires |value| > 0 && !IsSpace(value[0] as int) && '\n' !in value
    ensures Preprocess("$def " + name + " " + value + "\n" + rest, defs, f) == Preprocess(rest, defs[name := value], f)
  {
    DefineDirective(name, value, rest, defs);
  }

  /** A defined word that follows the definition is replaced by its value. */
  lemma DefinitionApplies(name: string, value: string, rest: string, defs: Defs, f: Opener)
    requires IsWord(name) && !IsWordChar(Peek(rest))
    requires |value| > 0 && !IsSpace(value[0] as int) && '\n' !in value
    ensures Preprocess("$def " + name + " " + value + "\n" + name + rest, defs, f)
         == Then(value, Preprocess(rest, defs[name := value], f))
  {
    assert NoSpace(name) by {
      forall i | 0 <= i < |name| ensures !IsSpace(name[i] as int) {
        assert IsChar(name[i] as int);
      }
    }
    var d := "$def " + name + " " + value + "\n";
    assert d + name + rest == d + (name + rest);
    PreprocessDefine(name, value, name + rest, defs, f);
    WordReplacedOnce(name, rest, defs[name := value], f);
  }

  /** A later definition of the same name replaces the earlier one. */
  lemma LaterDefinitionWins(name: string, v1: string, v2: string, rest: string, defs: Defs, f: Opener)
    requires |name| > 0 && NoSpace(name)
    requires |v1| > 0 && !IsSpace(v1[0] as int) && '\n' !in v1
    requires |v2| > 0 && !IsSpace(v2[0] as int) && '\n' !in v2
    ensures Preprocess("$def " + name + " " + v1 + "\n" + ("$def " + name + " " + v2 + "\n" + rest), defs, f)
         == Preprocess(rest, defs[name := v2], f)
  {
    PreprocessDefine(name, v1, "$def " + name + " " + v2 + "\n" + rest, defs, f);
    PreprocessDefine(name, v2, rest, defs[name := v1], f);
    assert defs[name := v1][name := v2] == defs[name := v2];
  }

  /** A name alone on its line is defined as the empty text and the next
      line is left to be read. */
  lemma {:induction false} EmptyDefinition(name: string, rest: string, defs: Defs)
    requires |name| > 0 && NoSpace(name)
    ensures GetToken("$def " + name + "\n" + rest, defs) == Scanned(Define(name, []), [], rest)
  {
    var x := name + ("\n" + rest);
    assert "$def " + name + "\n" + rest == "$" + "def" + " " + x;
    CommandRead("def", x, defs);
    DefNameReads([], name, "\n" + rest);
    assert [] + name == name && ("\n" + rest)[1..] == rest;
  }

  /** As written, the newline after a name counts as the white space before
      the value, so the next line becomes the value and is not written out;
      with the end-of-line test taking effect the name is defined as empty. */
  lemma {:induction false} DefinitionSwallowsNextLine(name: string, line: string, rest: string)
    requires |name| > 0 && NoSpace(name)
    requires |line| > 0 && !IsSpace(line[0] as int) && '\n' !in line
    ensures DefNameAsWritten([], name + "\n" + line + "\n" + rest) == Scanned(Define(name, line), [], rest)
    ensures DefName([], name + "\n" + line + "\n" + rest) == Scanned(Define(name, []), [], line + "\n" + rest)
  {
    var y := line + "\n" + rest;
    assert name + "\n" + line + "\n" + rest == name + ("\n" + y);
    DefNameAsWrittenReads([], name, "\n" + y);
    DefNameReads([], name, "\n" + y);
    assert [] + name == name && ("\n" + y)[1..] == y;
    ValueRead(name, line, rest);
  }

  /** The `IncFileScan` state reads the file name up to the closing quote. */
  lemma {:induction false} IncScanReads(buf: string, w: string, rest: string)
    requires '"' !in w
    ensures IncScan(buf, w + "\"" + rest) == Scanned(Include(buf + w), [], rest)
  {
    var s := w + "\"" + rest;
    QuoteAfter(w, rest);
    var r := IncScan(buf, s);
    FirstQuote(w, rest, |s| - |r.rest| - 1);
  }

  /** Where the pieces of `w"rest` are. */
  lemma QuoteAfter(w: string, rest: string)
    ensures var s := w + "\"" + rest;
      s[|w|] == '"' && s[..|w|] == w && s[|w| + 1..] == rest && '"' in s
  {
    var s := w + "\"" + rest;
    assert s[|w|] == '"';
  }

  /** The first quote of `w"rest` is the one after `w` when `w` has none. */
  lemma FirstQuote(w: string, rest: string, n: int)
    requires '"' !in w
    requires var s := w + "\"" + rest; 0 <= n < |s| && s[n] == '"' && '"' !in s[..n]
    ensures n == |w|
  {
    var s := w + "\"" + rest;
    assert s[|w|] == '"';
    forall i | 0 <= i < n
      ensures s[i] != '"'
    {
      assert s[..n][i] == s[i] && s[..n][i] in s[..n];
    }
    forall i | 0 <= i < |w|
      ensures s[i] != '"'
    {
      assert s[i] == w[i] && w[i] in w;
    }
  }

  /** `$inc "FILE"` names the file up to the closing quote. */
  lemma {:induction false} IncludeDirective(file: string, rest: string, defs: Defs)
    requires '"' !in file
    ensures GetToken("$inc \"" + file + "\"" + rest, defs) == Scanned(Include(file), [], rest)
  {
    var x := "\"" + (file + "\"" + rest);
    assert "$inc \"" + file + "\"" + rest == "$" + "inc" + " " + x;
    CommandRead("inc", x, defs);
    IncStartQuote(file, rest);
  }

  /** After `$inc `, a quote starts the file name. */
  lemma {:induction false} IncStartQuote(file: string, rest: string)
    requires '"' !in file
    ensures IncStart("\"" + (file + "\"" + rest)) == Scanned(Include(file), [], rest)
  {
    QuoteStarts(file + "\"" + rest);
    NameFromStart(file, rest);
  }

  /** The file-name scan from an empty buffer reads exactly the name. */
  lemma NameFromStart(file: string, rest: string)
    requires '"' !in file
    ensures IncScan([], file + "\"" + rest) == Scanned(Include(file), [], rest)
  {
    IncScanReads([], file, rest);
    assert [] + file == file;
  }

  /** A quote after `$inc ` hands the rest to the file-name scan. */
  lemma QuoteStarts(y: string)
    ensures IncStart("\"" + y) == IncScan([], y)
  {
    assert ("\"" + y)[1..] == y;
  }

  /** An included file's text takes the directive's place and its definitions
      stay in force; a file that cannot be opened stops the run. */
  lemma PreprocessInclude(file: string, rest: string, defs: Defs, f: Opener)
    requires '"' !in file
    ensures Preprocess("$inc \"" + file + "\"" + rest, defs, f)
         == match f(file, defs)
            case None => Expanded([], defs, Some(MissingInclude(file)))
            case Some(result) => Then(result.0, Preprocess(rest, result.1, f))
  {
    IncludeDirective(file, rest, defs);
  }

  /** `$inc` followed by anything but white space and a quote is refused. */
  lemma {:induction false} IncludeWithoutQuote(c: char, x: string, defs: Defs)
    requires !IsSpace(c as int) && c != '"'
    ensures GetToken("$inc " + [c] + x, defs) == Thrown([], ExpectedFile)
  {
    assert "$inc " + [c] + x == "$" + "inc" + " " + ([c] + x);
    CommandRead("inc", [c] + x, defs);
  }

  /** A file name without its closing quote is refused. */
  lemma {:induction false} UnterminatedInclude(file: string, defs: Defs)
    requires '"' !in file
    ensures GetToken("$inc \"" + file, defs) == Thrown([], UnterminatedFile)
  {
    assert "$inc \"" + file == "$" + "inc" + " " + ("\"" + file);
    CommandRead("inc", "\"" + file, defs);
    assert ("\"" + file)[1..] == file;
  }
}
