/** The lexer (Scanner.cpp): a character-level state machine that turns the
    front of the input into one token. Each state of `Scanner::getToken` is one
    function below; reading a character is looking at the head of the remaining
    input, and `ungetc` (pushing the lookahead back) is returning the input
    without dropping that character. */
module Scanner {
  import opened Types
  import opened Tokens
  import opened Errors

  /** One token and the input left after its lexeme. */
  datatype Lexed = Lexed(tok: Token, rest: string)

  // ---------------------------------------------------------------------------
  // Keywords (parseId)

  /** The spelling of each keyword. */
  function Spelling(k: KeywordType): string {
    match k
    case Byte => "byte"
    case Int => "int"
    case Float => "float"
    case Void => "void"
    case Func => "func"
    case If => "if"
    case Else => "else"
    case Return => "return"
    case While => "while"
    case For => "for"
    case Pack => "pack"
  }

  /** `parseId`: an identifier spelled like a keyword is that keyword. */
  function ParseId(id: string): (t: Token)
    ensures t.Keyword? ==> Spelling(t.kw) == id
    ensures !t.Keyword? ==> t == Id(id)
  {
    if id == "byte" then Keyword(Byte)
    else if id == "int" then Keyword(Int)
    else if id == "float" then Keyword(Float)
    else if id == "void" then Keyword(Void)
    else if id == "func" then Keyword(Func)
    else if id == "if" then Keyword(If)
    else if id == "else" then Keyword(Else)
    else if id == "return" then Keyword(Return)
    else if id == "while" then Keyword(While)
    else if id == "for" then Keyword(For)
    else if id == "pack" then Keyword(Pack)
    else Id(id)
  }

  // ---------------------------------------------------------------------------
  // Integer conversion (parseInt)

  datatype NumberBase = Hex | Dec | Oct | Bin

  function Radix(b: NumberBase): nat {
    match b
    case Hex => 16
    case Dec => 10
    case Oct => 8
    case Bin => 2
  }

  /** A digit accepted while scanning a number in the given base. */
  predicate IsDigitOf(c: int, b: NumberBase) {
    match b
    case Hex => IsDigit(c) || ('a' as int <= ToLower(c) <= 'f' as int)
    case Dec => IsDigit(c)
    case Oct => '0' as int <= c <= '7' as int
    case Bin => '0' as int <= c <= '1' as int
  }

  /** Value of a hexadecimal digit of either case (also covers the smaller bases). */
  function DigitValue(c: int): (v: nat)
    requires IsDigitOf(c, Hex)
    ensures v < 16
    ensures IsDigit(c) ==> v == c - '0' as int
  {
    if IsDigit(c) then c - '0' as int else ToLower(c) - 'a' as int + 10
  }

  lemma DigitValueBound(c: int, b: NumberBase)
    requires IsDigitOf(c, b)
    ensures IsDigitOf(c, Hex) && DigitValue(c) < Radix(b)
  {
  }

  /** The value of a digit string read in base `b` (most significant digit first). */
  function DigitsValue(ds: string, b: NumberBase): nat
    requires forall i :: 0 <= i < |ds| ==> IsDigitOf(ds[i] as int, b)
    decreases |ds|
  {
    if |ds| == 0 then 0
    else
      DigitValueBound(ds[|ds| - 1] as int, b);
      DigitsValue(ds[..|ds| - 1], b) * Radix(b) + DigitValue(ds[|ds| - 1] as int)
  }

  /** `strtoll`: the digit string's value, saturated at LLONG_MAX; the empty
      string converts to 0. */
  function Strtoll(ds: string, b: NumberBase): (v: int)
    requires forall i :: 0 <= i < |ds| ==> IsDigitOf(ds[i] as int, b)
    ensures 0 <= v <= I64Max
    ensures DigitsValue(ds, b) <= I64Max ==> v == DigitsValue(ds, b)
    ensures |ds| == 0 ==> v == 0
  {
    var v := DigitsValue(ds, b);
    if v > I64Max then I64Max else v
  }

  // ---------------------------------------------------------------------------
  // String escapes

  /** The character a one-letter escape sequence `\c` stands for. */
  function EscapeChar(c: int): (r: Option<char>)
    ensures r.Some? ==> r.value as int < 32 || r.value as int == c
    ensures (r.Some? && r.value as int == c) <==> c == '\\' as int || c == '\'' as int || c == '"' as int
    ensures r.Some? && r.value as int < 32 ==> 'a' as int <= c <= 'v' as int
  {
    if c == 'a' as int then Some(7 as char)
    else if c == 'b' as int then Some(8 as char)
    else if c == 'e' as int then Some(27 as char)
    else if c == 'f' as int then Some(12 as char)
    else if c == 'n' as int then Some(10 as char)
    else if c == 'r' as int then Some(13 as char)
    else if c == 't' as int then Some(9 as char)
    else if c == 'v' as int then Some(11 as char)
    else if c == '\\' as int then Some('\\')
    else if c == '\'' as int then Some('\'')
    else if c == '"' as int then Some('"')
    else None
  }

  // ---------------------------------------------------------------------------
  // The state machine

  /** `getToken`: the next token of `s` and the input after it. */
  function GetToken(s: string): (r: Lexed)
    ensures IsSuffix(r.rest, s)
    ensures r.tok == Eof ==> r.rest == []
    ensures r.tok != Eof ==> |r.rest| < |s|
  {
    ScanStart(s)
  }

  function ScanStart(s: string): (r: Lexed)
    decreases |s|, 0
    ensures IsSuffix(r.rest, s)
    ensures r.tok == Eof ==> r.rest == []
    ensures r.tok != Eof ==> |r.rest| < |s|
  {
    if |s| == 0 then Lexed(Eof, s)
    else
      var c := s[0] as int;
      var t := s[1..];
      if IsSpace(c) then Then(ScanStart(t), s)
      else if IsAlpha(c) || c == '_' as int then Then(ScanId([s[0]], t), s)
      else if IsDigit(c) then Then(ScanNumber([s[0]], t), s)
      else if c == '"' as int then Then(ScanString([], t), s)
      else if c == '!' as int then Then(ScanNonEqu(t), s)
      else if c == '<' as int then Then(ScanLess(t), s)
      else if c == '>' as int then Then(ScanMore(t), s)
      else if c == '=' as int then Then(ScanAssign(t), s)
      else if c == '+' as int then Lexed(Plus, t)
      else if c == '-' as int then Lexed(Minus, t)
      else if c == '*' as int then Lexed(Mul, t)
      else if c == '/' as int then Lexed(Div, t)
      else if c == '(' as int then Lexed(LeftBracket, t)
      else if c == ')' as int then Lexed(RightBracket, t)
      else if c == '{' as int then Lexed(LeftCurly, t)
      else if c == '}' as int then Lexed(RightCurly, t)
      else if c == ',' as int then Lexed(Comma, t)
      else if c == '.' as int then Lexed(Dot, t)
      else if c == ':' as int then Lexed(Colon, t)
      else if c == ';' as int then Lexed(SemiColon, t)
      else if c == '#' as int then Then(ScanStartComment(t), s)
      else Lexed(Null, t)      // unexpected symbol
  }

  /** Passes on the result of a state entered after the first character of `s`
      was read; records that its rest is still a suffix of `s`. */
  function Then(r: Lexed, s: string): (r': Lexed)
    requires |s| > 0 && IsSuffix(r.rest, s[1..])
    ensures r' == r && IsSuffix(r.rest, s) && |r.rest| < |s|
  {
    SuffixLength(r.rest, s[1..]);
    r
  }

  function ScanId(buf: string, s: string): (r: Lexed)
    decreases |s|
    ensures IsSuffix(r.rest, s) && r.tok != Eof
  {
    var c := Peek(s);
    if IsAlnum(c) || c == '_' as int then Then(ScanId(buf + [s[0]], s[1..]), s)
    else Lexed(ParseId(buf), s)
  }

  function ScanNumber(buf: string, s: string): (r: Lexed)
    requires forall i :: 0 <= i < |buf| ==> IsDigit(buf[i] as int)
    decreases |s|
    ensures IsSuffix(r.rest, s) && r.tok != Eof
  {
    var c := Peek(s);
    if IsDigit(c) then Then(ScanNumber(buf + [s[0]], s[1..]), s)
    else if c == 'x' as int then
      if buf == "0" then Then(ScanBased(Hex, [], s[1..]), s) else Lexed(Null, s[1..])
    else if c == 'o' as int then
      if buf == "0" then Then(ScanBased(Oct, [], s[1..]), s) else Lexed(Null, s[1..])
    else if c == 'b' as int then
      if buf == "0" then Then(ScanBased(Bin, [], s[1..]), s) else Lexed(Null, s[1..])
    else if c == '.' as int then Then(ScanFloatingPoint(buf + [s[0]], s[1..]), s)
    else if ToLower(c) == 'e' as int then Then(ScanExp(buf + [s[0]], s[1..]), s)
    else Lexed(IntLit(Strtoll(buf, Dec)), s)
  }

  /** The NumberHex, NumberOct and NumberBin states. */
  function ScanBased(b: NumberBase, buf: string, s: string): (r: Lexed)
    requires forall i :: 0 <= i < |buf| ==> IsDigitOf(buf[i] as int, b)
    decreases |s|
    ensures IsSuffix(r.rest, s) && r.tok.IntLit?
  {
    var c := Peek(s);
    if IsDigitOf(c, b) then Then(ScanBased(b, buf + [s[0]], s[1..]), s)
    else Lexed(IntLit(Strtoll(buf, b)), s)
  }

  function ScanFloatingPoint(buf: string, s: string): (r: Lexed)
    ensures IsSuffix(r.rest, s) && r.tok != Eof
  {
    if IsDigit(Peek(s)) then Then(ScanFraction(buf + [s[0]], s[1..]), s)
    else Lexed(Null, Advance(s))
  }

  function ScanFraction(buf: string, s: string): (r: Lexed)
    decreases |s|
    ensures IsSuffix(r.rest, s) && r.tok != Eof
  {
    var c := Peek(s);
    if IsDigit(c) then Then(ScanFraction(buf + [s[0]], s[1..]), s)
    else if ToLower(c) == 'e' as int then Then(ScanExp(buf + [s[0]], s[1..]), s)
    else Lexed(FloatLit(Parsed(buf)), s)
  }

  function ScanExp(buf: string, s: string): (r: Lexed)
    ensures IsSuffix(r.rest, s) && r.tok != Eof
  {
    var c := Peek(s);
    if IsDigit(c) then Then(ScanExpTail(buf + [s[0]], s[1..]), s)
    else if c == '+' as int || c == '-' as int then Then(ScanExpSign(buf + [s[0]], s[1..]), s)
    else Lexed(Null, Advance(s))
  }

  function ScanExpSign(buf: string, s: string): (r: Lexed)
    ensures IsSuffix(r.rest, s) && r.tok != Eof
  {
    if IsDigit(Peek(s)) then Then(ScanExpTail(buf + [s[0]], s[1..]), s)
    else Lexed(Null, Advance(s))
  }

  function ScanExpTail(buf: string, s: string): (r: Lexed)
    decreases |s|
    ensures IsSuffix(r.rest, s) && r.tok.FloatLit?
  {
    if IsDigit(Peek(s)) then Then(ScanExpTail(buf + [s[0]], s[1..]), s)
    else Lexed(FloatLit(Parsed(buf)), s)
  }

  function ScanString(buf: string, s: string): (r: Lexed)
    decreases |s|
    ensures IsSuffix(r.rest, s) && r.tok != Eof
  {
    var c := Peek(s);
    if IsPrintable(c) then
      if c == '"' as int then Lexed(Str(buf), s[1..])
      else if c == '\\' as int then Then(ScanEscape(buf, s[1..]), s)
      else Then(ScanString(buf + [s[0]], s[1..]), s)
    else Lexed(Null, Advance(s))   // non-printable character or end of input
  }

  function ScanEscape(buf: string, s: string): (r: Lexed)
    decreases |s|
    ensures IsSuffix(r.rest, s) && r.tok != Eof
  {
    var c := Peek(s);
    match EscapeChar(c)
    case Some(e) => Then(ScanString(buf + [e], s[1..]), s)
    case None =>
      if c == 'x' as int then Then(ScanEscapeHex1(buf, s[1..]), s)
      else Lexed(Null, Advance(s))
  }

  function ScanEscapeHex1(buf: string, s: string): (r: Lexed)
    decreases |s|
    ensures IsSuffix(r.rest, s) && r.tok != Eof
  {
    var c := ToLower(Peek(s));
    if IsDigitOf(c, Hex) then Then(ScanEscapeHex2(buf, DigitValue(c), s[1..]), s)
    else Lexed(Null, Advance(s))
  }

  function ScanEscapeHex2(buf: string, h1: nat, s: string): (r: Lexed)
    requires h1 < 16
    decreases |s|
    ensures IsSuffix(r.rest, s) && r.tok != Eof
  {
    var c := ToLower(Peek(s));
    if IsDigitOf(c, Hex) then
      Then(ScanString(buf + [(16 * h1 + DigitValue(c)) as char], s[1..]), s)
    else Lexed(Null, Advance(s))
  }

  function ScanNonEqu(s: string): (r: Lexed)
    ensures IsSuffix(r.rest, s) && r.tok != Eof
  {
    if Peek(s) == '=' as int then Lexed(NonEqu, s[1..])
    else Lexed(Null, Advance(s))
  }

  function ScanLess(s: string): (r: Lexed)
    ensures IsSuffix(r.rest, s) && r.tok != Eof
  {
    if Peek(s) == '=' as int then Lexed(LessEqu, s[1..]) else Lexed(Less, s)
  }

  function ScanMore(s: string): (r: Lexed)
    ensures IsSuffix(r.rest, s) && r.tok != Eof
  {
    if Peek(s) == '=' as int then Lexed(MoreEqu, s[1..]) else Lexed(More, s)
  }

  function ScanAssign(s: string): (r: Lexed)
    ensures IsSuffix(r.rest, s) && r.tok != Eof
  {
    if Peek(s) == '=' as int then Lexed(Equ, s[1..]) else Lexed(Assign, s)
  }

  /** After `#`: a second `#` opens a block comment; any other character,
      a newline included, is consumed and starts a line comment. */
  function ScanStartComment(s: string): (r: Lexed)
    decreases |s|, 2
    ensures IsSuffix(r.rest, s)
    ensures r.tok == Eof ==> r.rest == []
    ensures r.tok != Eof ==> |r.rest| < |s|
  {
    if Peek(s) == '#' as int then Then(ScanMulComment(s[1..]), s)
    else if |s| == 0 then ScanComment(s)
    else Then(ScanComment(s[1..]), s)
  }

  function ScanComment(s: string): (r: Lexed)
    decreases |s|, 1
    ensures IsSuffix(r.rest, s)
    ensures r.tok == Eof ==> r.rest == []
    ensures r.tok != Eof ==> |r.rest| < |s|
  {
    if |s| == 0 then ScanStart(s)
    else if s[0] == '\n' then Then(ScanStart(s[1..]), s)
    else Then(ScanComment(s[1..]), s)
  }

  function ScanMulComment(s: string): (r: Lexed)
    decreases |s|, 2
    ensures IsSuffix(r.rest, s)
    ensures r.tok == Eof ==> r.rest == []
    ensures r.tok != Eof ==> |r.rest| < |s|
  {
    if |s| == 0 then ScanEndMulComment(s)
    else if s[0] == '#' then Then(ScanEndMulComment(s[1..]), s)
    else Then(ScanMulComment(s[1..]), s)
  }

  function ScanEndMulComment(s: string): (r: Lexed)
    decreases |s|, 1
    ensures IsSuffix(r.rest, s)
    ensures r.tok == Eof ==> r.rest == []
    ensures r.tok != Eof ==> |r.rest| < |s|
  {
    if |s| == 0 then ScanStart(s)
    else if s[0] == '#' then Then(ScanStart(s[1..]), s)
    else Then(ScanMulComment(s[1..]), s)
  }

  // ---------------------------------------------------------------------------
  // Token stream

  /** The tokens the lexer returns on successive calls, up to and including the
      first Eof. Null tokens are kept: the lexer does not stop at them. */
  function Tokenize(s: string): (ts: seq<Token>)
    decreases |s|
    ensures |ts| > 0 && ts[|ts| - 1] == Eof
    ensures forall i :: 0 <= i < |ts| - 1 ==> ts[i] != Eof
  {
    var r := GetToken(s);
    if r.tok == Eof then [Eof] else [r.tok] + Tokenize(r.rest)
  }
}
