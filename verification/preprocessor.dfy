/** The macro preprocessor (Preprocessor.cpp): a character-level state machine
    that copies its input to its output, replacing each word that has a
    definition by the definition's value, and acting on `$def NAME VALUE` and
    `$inc "file"` directives. The definitions, a global table in the original,
    are threaded through explicitly; reading a character is looking at the
    head of the remaining input and `ungetc` is not dropping it. */
module Preprocessor {
  import opened Types
  import opened Errors

  /** Macro name to replacement text. */
  type Defs = map<string, string>

  // ---------------------------------------------------------------------------
  // Commands and messages

  datatype Command = Inc | Def | Null

  /** `parseCmd`: the word after `$` names the directive. */
  function ParseCmd(buf: string): (c: Command)
    ensures c == Inc <==> buf == "inc"
    ensures c == Def <==> buf == "def"
  {
    if buf == "inc" then Inc
    else if buf == "def" then Def
    else Null
  }

  const UnexpectedCommand := "Unexpected preprocessor command\n"
  const ExpectedFile := "Expected file to include\n"
  const UnterminatedFile := "Expected \"\"\" when including file\n"
  const ExpectedName := "Expected varible name to be defined\n"
  /** The original keeps reading past the end of the input here and never
      stops; the model reports it instead. */
  const UnterminatedCommand := "Unexpected end of input in preprocessor command\n"

  function MissingInclude(file: string): string {
    "cannot find included file [" + file + "]"
  }

  // ---------------------------------------------------------------------------
  // One token (getToken)

  /** What `getToken` hands to the driver: a word was copied or replaced
      (`Null`), the input ended, or a directive was read. */
  datatype Directive = Plain | EndOfInput | Include(file: string) | Define(name: string, value: string)

  /** The directive, the text written to the output on the way, and the input
      left; or the message of the exception thrown and the text written before. */
  datatype Scanned = Scanned(d: Directive, out: string, rest: string) | Thrown(out: string, msg: string)

  /** Characters that continue a word: visible characters other than `;`. */
  predicate IsWordChar(c: int) { IsChar(c) && c != ';' as int }

  /** `parseId`: a word with a definition is replaced by its value, which is
      written as it is; any other word is copied. */
  function Substitute(word: string, defs: Defs): string {
    if word in defs then defs[word] else word
  }

  function Emit(ch: char, r: Scanned): Scanned {
    r.(out := [ch] + r.out)
  }

  /** `getToken` from the `Start` state: characters that cannot start a word
      are copied to the output; `$` starts a directive and a visible character
      starts a word. */
  function GetToken(s: string, defs: Defs): (r: Scanned)
    decreases |s|
    ensures r.Scanned? && !r.d.EndOfInput? ==> |r.rest| < |s|
    ensures r.Scanned? && r.d.EndOfInput? ==>
      r.rest == [] && r.out == s && forall i :: 0 <= i < |s| ==> !IsChar(s[i] as int)
  {
    var c := Peek(s);
    if c == '$' as int then Cmd([], s[1..])
    else if c == EOF then Scanned(EndOfInput, [], s)
    else if IsChar(c) then Word([s[0]], s[1..], defs)
    else Emit(s[0], GetToken(s[1..], defs))
  }

  /** Length of the run of word characters at the head of `s`. */
  function WordLen(s: string): (n: nat)
    ensures n <= |s| && (forall i :: 0 <= i < n ==> IsWordChar(s[i] as int)) && !IsWordChar(Peek(s[n..]))
  {
    if IsWordChar(Peek(s)) then 1 + WordLen(s[1..]) else 0
  }

  /** The `Id` state: the word read so far is `buf`. The word ends before the
      first character that is not a word character, which is left unread, and
      is then copied or replaced. */
  function Word(buf: string, s: string, defs: Defs): (r: Scanned)
    decreases |s|
    ensures var n := WordLen(s); r == Scanned(Plain, Substitute(buf + s[..n], defs), s[n..])
  {
    if IsWordChar(Peek(s)) then
      var r := Word(buf + [s[0]], s[1..], defs);
      ShiftPrefix(buf, s, WordLen(s));
      r
    else
      assert s[..0] == [] && buf + [] == buf;
      Scanned(Plain, Substitute(buf, defs), s)
  }

  /** Moving the head of `s` to the end of `buf` leaves the split at `n` alone. */
  lemma ShiftPrefix(buf: string, s: string, n: nat)
    requires 1 <= n <= |s|
    ensures buf + [s[0]] + s[1..][..n - 1] == buf + s[..n]
    ensures s[1..][n - 1..] == s[n..]
  {
  }

  /** The `Cmd` state: the directive's name extends to the first white space. */
  function Cmd(buf: string, s: string): (r: Scanned)
    decreases |s|
    ensures r.Scanned? ==> |r.rest| < |s| && r.out == [] && (r.d.Include? || r.d.Define?)
    ensures r.Thrown? ==> r.out == []
  {
    var c := Peek(s);
    if c == EOF then Thrown([], UnterminatedCommand)
    else if IsSpace(c) then
      match ParseCmd(buf)
      case Inc => IncStart(s[1..])
      case Def => DefNameStart(s[1..])
      case Null => Thrown([], UnexpectedCommand)
    else Cmd(buf + [s[0]], s[1..])
  }

  /** `IncFileStart`: white space, then the opening `"`. */
  function IncStart(s: string): (r: Scanned)
    decreases |s|
    ensures r.Scanned? ==> |r.rest| < |s| && r.out == [] && r.d.Include?
    ensures r.Thrown? ==> r.out == [] && (r.msg == ExpectedFile || r.msg == UnterminatedFile)
  {
    var c := Peek(s);
    if IsSpace(c) then IncStart(s[1..])
    else if c == '"' as int then IncScan([], s[1..])
    else Thrown([], ExpectedFile)
  }

  /** `IncFileScan`: the file name extends to the closing `"`. */
  function IncScan(buf: string, s: string): (r: Scanned)
    decreases |s|
    ensures r.Thrown? <==> '"' !in s
    ensures r.Thrown? ==> r == Thrown([], UnterminatedFile)
    ensures r.Scanned? ==>
      && |r.rest| < |s| && r.out == []
      && var n := |s| - |r.rest| - 1;
         s[n] == '"' && '"' !in s[..n] && r.d == Include(buf + s[..n]) && r.rest == s[n + 1..]
  {
    var c := Peek(s);
    if c == '"' as int then Scanned(Include(buf), [], s[1..])
    else if c == EOF then Thrown([], UnterminatedFile)
    else
      var r := IncScan(buf + [s[0]], s[1..]);
      if r.Scanned? then ShiftPrefix(buf, s, |s| - |r.rest| - 1); r else r
  }

  /** `DefVarIdStart`: white space, then the first character of the name. */
  function DefNameStart(s: string): (r: Scanned)
    decreases |s|
    ensures r.Scanned? ==> |r.rest| <= |s| && r.out == [] && r.d.Define?
    ensures r.Thrown? ==> r == Thrown([], ExpectedName)
  {
    var c := Peek(s);
    if IsSpace(c) then DefNameStart(s[1..])
    else if c == EOF then Thrown([], ExpectedName)
    else DefName([], s)
  }

  /** `DefVarId` with the end-of-line test taking effect: a name followed by a
      newline (or by the end of the input) is defined as the empty text. */
  function DefName(buf: string, s: string): (r: Scanned)
    decreases |s|
    ensures r.Scanned? ==> |r.rest| <= |s| && r.out == [] && r.d.Define?
    ensures r.Thrown? ==> r == Thrown([], ExpectedName)
  {
    var c := Peek(s);
    if c == '\n' as int then Scanned(Define(buf, []), [], s[1..])
    else if IsSpace(c) then DefValueStart(buf, s[1..])
    else if c == EOF then Scanned(Define(buf, []), [], s)
    else DefName(buf + [s[0]], s[1..])
  }

  /** `DefVarId` as written: white space is tested first, and a newline is
      white space, so the end-of-line test after it never succeeds and the
      value is looked for on the following lines. */
  function DefNameAsWritten(buf: string, s: string): (r: Scanned)
    decreases |s|
    ensures r.Scanned? ==> |r.rest| <= |s| && r.out == [] && r.d.Define?
    ensures r.Thrown? ==> r == Thrown([], ExpectedName)
  {
    var c := Peek(s);
    if IsSpace(c) then DefValueStart(buf, s[1..])
    else if c == EOF || c == '\n' as int then Scanned(Define(buf, []), [], Advance(s))
    else DefNameAsWritten(buf + [s[0]], s[1..])
  }

  /** `DefVarValueStart`: white space (newlines included), then the value. */
  function DefValueStart(name: string, s: string): (r: Scanned)
    decreases |s|
    ensures r.Scanned? ==> |r.rest| <= |s| && r.out == [] && r.d.Define? && r.d.name == name
    ensures r.Thrown? ==> r == Thrown([], ExpectedName)
  {
    var c := Peek(s);
    if IsSpace(c) then DefValueStart(name, s[1..])
    else if c == EOF then Thrown([], ExpectedName)
    else DefValue(name, [], s)
  }

  /** Index of the first newline, or the length when there is none. */
  function LineEnd(s: string): (n: nat)
    ensures n <= |s| && (forall i :: 0 <= i < n ==> s[i] != '\n') && (n < |s| ==> s[n] == '\n')
  {
    if |s| == 0 || s[0] == '\n' then 0 else 1 + LineEnd(s[1..])
  }

  /** `DefVarValue`: the value is the rest of the line; the newline is read
      and not written. */
  function DefValue(name: string, buf: string, s: string): (r: Scanned)
    decreases |s|
    ensures var n := LineEnd(s);
      r == Scanned(Define(name, buf + s[..n]), [], if n < |s| then s[n + 1..] else [])
  {
    var c := Peek(s);
    if c == EOF then
      assert buf + s[..0] == buf;
      Scanned(Define(name, buf), [], s)
    else if c == '\n' as int then
      assert buf + s[..0] == buf;
      Scanned(Define(name, buf), [], s[1..])
    else
      var r := DefValue(name, buf + [s[0]], s[1..]);
      ShiftPrefix(buf, s, LineEnd(s));
      r
  }

  // ---------------------------------------------------------------------------
  // The driver (preprocess)

  /** The text written, the definitions in force at the end, and the message
      of the error that stopped the run, if any. Output written before an
      error is kept, as it stays in the output file. */
  datatype Expanded = Expanded(out: string, defs: Defs, failure: Option<string>)

  function Then(out: string, r: Expanded): Expanded {
    r.(out := out + r.out)
  }

  /** Opening a file named by `$inc` and preprocessing it with the shared
      definitions: the text it writes and the definitions afterwards, or
      nothing when the file cannot be opened. */
  type Opener = (string, Defs) -> Option<(string, Defs)>

  /** `preprocess`: tokens until the end of the input. A definition is entered
      (overwriting an earlier one) for the text after it; an inclusion is
      delegated to `includeFile`. */
  function Preprocess(s: string, defs: Defs, includeFile: Opener): (r: Expanded)
    decreases |s|
    ensures |s| == 0 ==> r == Expanded([], defs, None)
  {
    match GetToken(s, defs)
    case Thrown(out, msg) => Expanded(out, defs, Some(msg))
    case Scanned(d, out, rest) =>
      match d
      case EndOfInput => Expanded(out, defs, None)
      case Plain => Then(out, Preprocess(rest, defs, includeFile))
      case Define(name, value) => Then(out, Preprocess(rest, defs[name := value], includeFile))
      case Include(file) =>
        match includeFile(file, defs)
        case None => Expanded(out, defs, Some(MissingInclude(file)))
        case Some(result) => Then(out + result.0, Preprocess(rest, result.1, includeFile))
  }
}
