/** Properties of the lexer: what `GetToken` returns for each kind of lexeme,
    and that rendering a value as a literal and lexing it gives the value back. */
module ScannerProps {
  import opened Types
  import opened Tokens
  import opened Errors
  import opened Scanner

  // ---------------------------------------------------------------------------
  // Identifiers and keywords

  predicate IsIdentStart(c: int) { IsAlpha(c) || c == '_' as int }

  predicate IsIdentChar(c: int) { IsAlnum(c) || c == '_' as int }

  /** `[A-Za-z_][A-Za-z0-9_]*` */
  predicate IsWord(w: string) {
    |w| > 0 && IsIdentStart(w[0] as int) && forall i :: 1 <= i < |w| ==> IsIdentChar(w[i] as int)
  }

  /** Exactly the eleven keyword spellings are keywords. */
  lemma KeywordTable(id: string)
    ensures ParseId(id).Keyword? <==> exists k :: Spelling(k) == id
    ensures forall k :: ParseId(Spelling(k)) == Keyword(k)
  {
    forall k ensures ParseId(Spelling(k)) == Keyword(k) {
      match k
      case Byte => case Int => case Float => case Void => case Func => case If =>
      case Else => case Return => case While => case For => case Pack =>
    }
  }

  lemma {:induction false} ScanIdWord(buf: string, w: string, rest: string)
    requires forall i :: 0 <= i < |w| ==> IsIdentChar(w[i] as int)
    requires !IsIdentChar(Peek(rest))
    ensures ScanId(buf, w + rest) == Lexed(ParseId(buf + w), rest)
    decreases |w|
  {
    if |w| == 0 {
      assert w + rest == rest;
      assert buf + w == buf;
    } else {
      assert (w + rest)[0] == w[0];
      assert (w + rest)[1..] == w[1..] + rest;
      ScanIdWord(buf + [w[0]], w[1..], rest);
      assert buf + [w[0]] + w[1..] == buf + w;
    }
  }

  /** A word followed by a non-identifier character lexes as its keyword, or as
      an identifier carrying its text; the following character is left in place. */
  lemma LexWord(w: string, rest: string)
    requires IsWord(w) && !IsIdentChar(Peek(rest))
    ensures GetToken(w + rest) == Lexed(ParseId(w), rest)
    ensures GetToken(w + rest).tok.Id? <==> forall k :: Spelling(k) != w
  {
    assert (w + rest)[0] == w[0];
    assert (w + rest)[1..] == w[1..] + rest;
    ScanIdWord([w[0]], w[1..], rest);
    assert [w[0]] + w[1..] == w;
    KeywordTable(w);
  }

  // ---------------------------------------------------------------------------
  // Whitespace, end of input and stray characters

  lemma {:induction false} SkipSpaces(ws: string, s: string)
    requires forall i :: 0 <= i < |ws| ==> IsSpace(ws[i] as int)
    ensures GetToken(ws + s) == GetToken(s)
    decreases |ws|
  {
    if |ws| > 0 {
      assert (ws + s)[0] == ws[0];
      assert (ws + s)[1..] == ws[1..] + s;
      SkipSpaces(ws[1..], s);
    } else {
      assert ws + s == s;
    }
  }

  lemma EndOfInput()
    ensures GetToken("") == Lexed(Eof, "")
  {
  }

  /** A character that starts no token. */
  predicate Unrecognised(c: char) {
    var x := c as int;
    !IsSpace(x) && !IsIdentStart(x) && !IsDigit(x) && !(c in "\"!<>=+-*/(){},.:;#")
  }

  lemma StrayCharacter(c: char, rest: string)
    requires Unrecognised(c)
    ensures GetToken([c] + rest) == Lexed(Null, rest)
  {
    assert ([c] + rest)[1..] == rest;
  }

  // ---------------------------------------------------------------------------
  // Operators

  /** `<` and `<=`: the `=` is taken only when it follows; otherwise the
      lookahead character is pushed back. */
  lemma LexLess(rest: string)
    ensures GetToken("<=" + rest) == Lexed(LessEqu, rest)
    ensures Peek(rest) != '=' as int ==> GetToken("<" + rest) == Lexed(Less, rest)
  {
    assert ("<=" + rest)[1..] == "=" + rest && ("=" + rest)[1..] == rest;
    assert ("<" + rest)[1..] == rest;
  }

  lemma LexMore(rest: string)
    ensures GetToken(">=" + rest) == Lexed(MoreEqu, rest)
    ensures Peek(rest) != '=' as int ==> GetToken(">" + rest) == Lexed(More, rest)
  {
    assert (">=" + rest)[1..] == "=" + rest && ("=" + rest)[1..] == rest;
    assert (">" + rest)[1..] == rest;
  }

  lemma LexAssign(rest: string)
    ensures GetToken("==" + rest) == Lexed(Equ, rest)
    ensures Peek(rest) != '=' as int ==> GetToken("=" + rest) == Lexed(Assign, rest)
  {
    assert ("==" + rest)[1..] == "=" + rest && ("=" + rest)[1..] == rest;
  }

  /** `!` is only valid as the start of `!=`; otherwise the character after it
      is consumed and the token is Null. */
  lemma LexNotEqual(rest: string)
    ensures GetToken("!=" + rest) == Lexed(NonEqu, rest)
    ensures Peek(rest) != '=' as int ==> GetToken("!" + rest) == Lexed(Null, Advance(rest))
  {
    assert ("!=" + rest)[1..] == "=" + rest && ("=" + rest)[1..] == rest;
    assert ("!" + rest)[1..] == rest;
  }

  // ---------------------------------------------------------------------------
  // Integers

  predicate AllDigits(ds: string, b: NumberBase) {
    forall i :: 0 <= i < |ds| ==> IsDigitOf(ds[i] as int, b)
  }

  /** A character that ends an integer literal of base `b` rather than
      extending it or turning it into something else. */
  predicate EndsNumber(c: int, b: NumberBase) {
    match b
    case Dec =>
      !IsDigit(c) && c != 'x' as int && c != 'o' as int && c != 'b' as int
      && c != '.' as int && ToLower(c) != 'e' as int
    case _ => !IsDigitOf(c, b)
  }

  /** The letter after `0` that selects a base. */
  function Marker(b: NumberBase): char {
    match b
    case Hex => 'x'
    case Oct => 'o'
    case Bin => 'b'
    case Dec => '0'
  }

  /** What precedes the digits of a literal in base `b`. */
  function Prefix(b: NumberBase): string {
    if b == Dec then "" else ['0', Marker(b)]
  }

  lemma {:induction false} ScanNumberDigits(buf: string, ds: string, rest: string)
    requires AllDigits(buf, Dec) && AllDigits(ds, Dec)
    ensures ScanNumber(buf, ds + rest) == ScanNumber(buf + ds, rest)
    decreases |ds|
  {
    if |ds| == 0 {
      assert ds + rest == rest && buf + ds == buf;
    } else {
      assert (ds + rest)[0] == ds[0];
      assert (ds + rest)[1..] == ds[1..] + rest;
      ScanNumberDigits(buf + [ds[0]], ds[1..], rest);
      assert buf + [ds[0]] + ds[1..] == buf + ds;
    }
  }

  lemma {:induction false} ScanBasedDigits(b: NumberBase, buf: string, ds: string, rest: string)
    requires AllDigits(buf, b) && AllDigits(ds, b) && !IsDigitOf(Peek(rest), b)
    ensures AllDigits(buf + ds, b)
    ensures ScanBased(b, buf, ds + rest) == Lexed(IntLit(Strtoll(buf + ds, b)), rest)
    decreases |ds|
  {
    if |ds| == 0 {
      assert ds + rest == rest && buf + ds == buf;
    } else {
      assert (ds + rest)[0] == ds[0];
      assert (ds + rest)[1..] == ds[1..] + rest;
      ScanBasedDigits(b, buf + [ds[0]], ds[1..], rest);
      assert buf + [ds[0]] + ds[1..] == buf + ds;
    }
  }

  /** The first character of a token selects the state the lexer enters. */
  lemma StartDigit(s: string)
    requires |s| > 0 && IsDigit(s[0] as int)
    ensures GetToken(s) == ScanNumber([s[0]], s[1..])
  {
  }

  lemma NumberEnds(buf: string, rest: string)
    requires AllDigits(buf, Dec) && EndsNumber(Peek(rest), Dec)
    ensures ScanNumber(buf, rest) == Lexed(IntLit(Strtoll(buf, Dec)), rest)
  {
  }

  /** A decimal literal lexes as the saturated value of its digits, leaving the
      character that ended it in place. */
  lemma LexDecimal(ds: string, rest: string)
    requires |ds| > 0 && AllDigits(ds, Dec) && EndsNumber(Peek(rest), Dec)
    ensures GetToken(ds + rest) == Lexed(IntLit(Strtoll(ds, Dec)), rest)
  {
    LexMantissa(ds, rest);
    NumberEnds(ds, rest);
  }

  /** `0x`, `0o` and `0b` switch to base 16, 8 and 2; the digits after them
      (possibly none: `0x` alone is 0) give the value. */
  lemma LexBased(b: NumberBase, ds: string, rest: string)
    requires b != Dec && AllDigits(ds, b) && !IsDigitOf(Peek(rest), b)
    ensures GetToken(Prefix(b) + ds + rest) == Lexed(IntLit(Strtoll(ds, b)), rest)
  {
    AppendAssoc(Prefix(b), ds, rest);
    ZeroMarker(b, ds + rest);
    ScanBasedDigits(b, [], ds, rest);
    assert [] + ds == ds;
  }

  lemma ZeroMarker(b: NumberBase, s: string)
    requires b != Dec
    ensures GetToken(Prefix(b) + s) == ScanBased(b, [], s)
  {
    var u := Prefix(b) + s;
    assert u[0] == '0' && u[1..] == [Marker(b)] + s;
    StartDigit(u);
    NumberMarker(b, s);
  }

  lemma NumberMarker(b: NumberBase, s: string)
    requires b != Dec
    ensures ScanNumber("0", [Marker(b)] + s) == ScanBased(b, [], s)
  {
    assert ([Marker(b)] + s)[1..] == s;
  }

  /** A base letter after anything but a lone `0` is an error; the letter is consumed. */
  lemma BadBasePrefix(ds: string, b: NumberBase, rest: string)
    requires b != Dec && |ds| > 0 && AllDigits(ds, Dec) && ds != "0"
    ensures GetToken(ds + [Marker(b)] + rest) == Lexed(Null, rest)
  {
    var s := ds + [Marker(b)] + rest;
    assert s[0] == ds[0];
    assert s[1..] == ds[1..] + ([Marker(b)] + rest);
    ScanNumberDigits([ds[0]], ds[1..], [Marker(b)] + rest);
    assert [ds[0]] + ds[1..] == ds;
    assert ([Marker(b)] + rest)[1..] == rest;
  }

  function DigitChar(d: nat): (c: char)
    requires d < 16
    ensures IsDigitOf(c as int, Hex) && DigitValue(c as int) == d
  {
    if d < 10 then ('0' as int + d) as char else ('a' as int + d - 10) as char
  }

  lemma DigitCharOf(d: nat, b: NumberBase)
    requires d < Radix(b)
    ensures IsDigitOf(DigitChar(d) as int, b)
  {
  }

  /** The digits of `n` in base `b`, most significant first, lower-case hex. */
  function Render(n: nat, b: NumberBase): (ds: string)
    ensures |ds| > 0 && AllDigits(ds, b)
    decreases n
  {
    var r := Radix(b);
    DigitCharOf(n % r, b);
    if n < r then [DigitChar(n)] else Render(n / r, b) + [DigitChar(n % r)]
  }

  lemma {:induction false} RenderValue(n: nat, b: NumberBase)
    ensures DigitsValue(Render(n, b), b) == n
    decreases n
  {
    var r := Radix(b);
    var ds := Render(n, b);
    if n < r {
      assert ds[..0] == [];
    } else {
      RenderValue(n / r, b);
      assert ds[..|ds| - 1] == Render(n / r, b);
    }
  }

  /** Round trip: the rendering of an in-range natural in base 10, 16, 8 or 2,
      with its prefix, lexes back to that natural. */
  lemma IntRoundTrip(n: nat, b: NumberBase, rest: string)
    requires n <= I64Max && EndsNumber(Peek(rest), b)
    ensures GetToken(Prefix(b) + Render(n, b) + rest) == Lexed(IntLit(n), rest)
  {
    RenderValue(n, b);
    if b == Dec {
      assert Prefix(b) + Render(n, b) + rest == Render(n, b) + rest;
      LexDecimal(Render(n, b), rest);
    } else {
      LexBased(b, Render(n, b), rest);
    }
  }

  // ---------------------------------------------------------------------------
  // Floating point syntax (the value itself is the lexeme, converted elsewhere)

  lemma {:induction false} ScanFractionDigits(buf: string, ds: string, rest: string)
    requires AllDigits(ds, Dec) && !IsDigit(Peek(rest)) && ToLower(Peek(rest)) != 'e' as int
    ensures ScanFraction(buf, ds + rest) == Lexed(FloatLit(Parsed(buf + ds)), rest)
    decreases |ds|
  {
    if |ds| == 0 {
      assert ds + rest == rest && buf + ds == buf;
    } else {
      assert (ds + rest)[0] == ds[0];
      assert (ds + rest)[1..] == ds[1..] + rest;
      ScanFractionDigits(buf + [ds[0]], ds[1..], rest);
      assert buf + [ds[0]] + ds[1..] == buf + ds;
    }
  }

  lemma {:induction false} ScanExpTailDigits(buf: string, ds: string, rest: string)
    requires AllDigits(ds, Dec) && !IsDigit(Peek(rest))
    ensures ScanExpTail(buf, ds + rest) == Lexed(FloatLit(Parsed(buf + ds)), rest)
    decreases |ds|
  {
    if |ds| == 0 {
      assert ds + rest == rest && buf + ds == buf;
    } else {
      assert (ds + rest)[0] == ds[0];
      assert (ds + rest)[1..] == ds[1..] + rest;
      ScanExpTailDigits(buf + [ds[0]], ds[1..], rest);
      assert buf + [ds[0]] + ds[1..] == buf + ds;
    }
  }

  lemma NumberDot(buf: string, rest: string)
    requires AllDigits(buf, Dec) && |rest| > 0 && rest[0] == '.'
    ensures ScanNumber(buf, rest) == ScanFloatingPoint(buf + ".", rest[1..])
  {
  }

  lemma NumberExp(buf: string, rest: string)
    requires AllDigits(buf, Dec) && |rest| > 0 && IsExpLetter(rest[0])
    ensures ScanNumber(buf, rest) == ScanExp(buf + [rest[0]], rest[1..])
  {
  }

  lemma FloatingPointDigit(buf: string, rest: string)
    requires |rest| > 0 && IsDigit(rest[0] as int)
    ensures ScanFloatingPoint(buf, rest) == ScanFraction(buf + [rest[0]], rest[1..])
  {
  }

  /** The digits before `.` or `e` of a float literal. */
  lemma LexMantissa(ip: string, rest: string)
    requires |ip| > 0 && AllDigits(ip, Dec)
    ensures GetToken(ip + rest) == ScanNumber(ip, rest)
  {
    DigitsSplit(ip);
    AppendAssoc([ip[0]], ip[1..], rest);
    StartDigitCons(ip[0], ip[1..] + rest);
    ScanNumberDigits([ip[0]], ip[1..], rest);
  }

  lemma StartDigitCons(d: char, t: string)
    requires IsDigit(d as int)
    ensures GetToken([d] + t) == ScanNumber([d], t)
  {
    assert ([d] + t)[1..] == t;
    StartDigit([d] + t);
  }

  lemma DigitsSplit(ip: string)
    requires |ip| > 0 && AllDigits(ip, Dec)
    ensures IsDigit(ip[0] as int) && AllDigits([ip[0]], Dec) && AllDigits(ip[1..], Dec)
      && [ip[0]] + ip[1..] == ip
  {
    assert forall i :: 0 <= i < |ip| - 1 ==> ip[1..][i] == ip[i + 1];
  }

  /** `digits . digits` is a float whose lexeme is exactly what was read. */
  lemma LexFraction(ip: string, fp: string, rest: string)
    requires |ip| > 0 && AllDigits(ip, Dec) && |fp| > 0 && AllDigits(fp, Dec)
    requires !IsDigit(Peek(rest)) && ToLower(Peek(rest)) != 'e' as int
    ensures GetToken(ip + "." + fp + rest) == Lexed(FloatLit(Parsed(ip + "." + fp)), rest)
  {
    Append4(ip, ".", fp, rest);
    LexMantissa(ip, "." + fp + rest);
    NumberFraction(ip, fp, rest);
  }

  lemma NumberFraction(ip: string, fp: string, rest: string)
    requires AllDigits(ip, Dec) && |fp| > 0 && AllDigits(fp, Dec)
    requires !IsDigit(Peek(rest)) && ToLower(Peek(rest)) != 'e' as int
    ensures ScanNumber(ip, "." + fp + rest) == Lexed(FloatLit(Parsed(ip + "." + fp)), rest)
  {
    var t := "." + fp + rest;
    assert t[0] == '.' && t[1..] == fp + rest;
    NumberDot(ip, t);
    FractionDigits(ip + ".", fp, rest);
  }

  lemma FractionDigits(buf: string, fp: string, rest: string)
    requires |fp| > 0 && AllDigits(fp, Dec)
    requires !IsDigit(Peek(rest)) && ToLower(Peek(rest)) != 'e' as int
    ensures ScanFloatingPoint(buf, fp + rest) == Lexed(FloatLit(Parsed(buf + fp)), rest)
  {
    var u := fp + rest;
    assert u[0] == fp[0] && u[1..] == fp[1..] + rest;
    FloatingPointDigit(buf, u);
    ScanFractionDigits(buf + [fp[0]], fp[1..], rest);
    assert buf + [fp[0]] + fp[1..] == buf + fp;
  }

  predicate IsExpLetter(e: char) { e == 'e' || e == 'E' }

  predicate IsSign(sign: string) { sign == "" || sign == "+" || sign == "-" }

  /** After `e`/`E`: an optional sign, then at least one digit. */
  lemma ScanExponent(buf: string, sign: string, es: string, rest: string)
    requires IsSign(sign) && |es| > 0 && AllDigits(es, Dec) && !IsDigit(Peek(rest))
    ensures ScanExp(buf, sign + es + rest) == Lexed(FloatLit(Parsed(buf + sign + es)), rest)
  {
    assert (es + rest)[0] == es[0] && (es + rest)[1..] == es[1..] + rest;
    if sign == "" {
      assert sign + es + rest == es + rest;
      ScanExpTailDigits(buf + [es[0]], es[1..], rest);
      assert buf + [es[0]] + es[1..] == buf + sign + es;
    } else {
      assert (sign + es + rest)[0] == sign[0];
      assert (sign + es + rest)[1..] == es + rest;
      ScanExpTailDigits(buf + sign + [es[0]], es[1..], rest);
      assert buf + sign + [es[0]] + es[1..] == buf + sign + es;
    }
  }

  lemma {:induction false} NumberExponent(ip: string, e: char, sign: string, es: string, rest: string)
    requires AllDigits(ip, Dec) && IsExpLetter(e)
    requires IsSign(sign) && |es| > 0 && AllDigits(es, Dec) && !IsDigit(Peek(rest))
    ensures ScanNumber(ip, [e] + sign + es + rest) == Lexed(FloatLit(Parsed(ip + [e] + sign + es)), rest)
  {
    var tail := [e] + sign + es + rest;
    assert tail[0] == e && tail[1..] == sign + es + rest;
    NumberExp(ip, tail);
    ScanExponent(ip + [e], sign, es, rest);
  }

  /** `digits e [sign] digits` */
  lemma LexExponent(ip: string, e: char, sign: string, es: string, rest: string)
    requires |ip| > 0 && AllDigits(ip, Dec) && IsExpLetter(e)
    requires IsSign(sign) && |es| > 0 && AllDigits(es, Dec) && !IsDigit(Peek(rest))
    ensures GetToken(ip + [e] + sign + es + rest)
         == Lexed(FloatLit(Parsed(ip + [e] + sign + es)), rest)
  {
    var tail := [e] + sign + es + rest;
    assert ip + [e] + sign + es + rest == ip + tail;
    LexMantissa(ip, tail);
    NumberExponent(ip, e, sign, es, rest);
  }

  lemma FractionExponent(buf: string, fp: string, e: char, sign: string, es: string, rest: string)
    requires |fp| > 0 && AllDigits(fp, Dec) && IsExpLetter(e)
    requires IsSign(sign) && |es| > 0 && AllDigits(es, Dec) && !IsDigit(Peek(rest))
    ensures ScanFloatingPoint(buf, fp + [e] + sign + es + rest)
         == Lexed(FloatLit(Parsed(buf + fp + [e] + sign + es)), rest)
  {
    var t := sign + es + rest;
    DigitsSplit(fp);
    FloatRegroup(fp, e, sign, es, rest);
    FloatingPointCons(buf, fp[0], fp[1..] + ([e] + t));
    FractionThenExp(buf + [fp[0]], fp[1..], e, t);
    AppendAssoc(buf, [fp[0]], fp[1..]);
    ScanExponent(buf + fp + [e], sign, es, rest);
  }

  lemma FloatRegroup(fp: string, e: char, sign: string, es: string, rest: string)
    requires |fp| > 0
    ensures fp + [e] + sign + es + rest == [fp[0]] + (fp[1..] + ([e] + (sign + es + rest)))
  {
    Append4([e], sign, es, rest);
    Append4(fp, [e], sign, es);
    AppendAssoc(fp, [e] + sign + es, rest);
    assert fp == [fp[0]] + fp[1..];
    AppendAssoc([fp[0]], fp[1..], [e] + sign + es + rest);
  }

  lemma FloatingPointCons(buf: string, d: char, t: string)
    requires IsDigit(d as int)
    ensures ScanFloatingPoint(buf, [d] + t) == ScanFraction(buf + [d], t)
  {
    assert ([d] + t)[0] == d && ([d] + t)[1..] == t;
    FloatingPointDigit(buf, [d] + t);
  }

  lemma FractionThenExp(buf: string, ds: string, e: char, t: string)
    requires AllDigits(ds, Dec) && IsExpLetter(e)
    ensures ScanFraction(buf, ds + ([e] + t)) == ScanExp(buf + ds + [e], t)
  {
    assert ([e] + t)[0] == e && ([e] + t)[1..] == t;
    ScanFractionDigitsThenExp(buf, ds, [e] + t);
  }

  lemma {:induction false} NumberFractionExponent(ip: string, fp: string, e: char, sign: string, es: string, rest: string)
    requires AllDigits(ip, Dec) && |fp| > 0 && AllDigits(fp, Dec) && IsExpLetter(e)
    requires IsSign(sign) && |es| > 0 && AllDigits(es, Dec) && !IsDigit(Peek(rest))
    ensures ScanNumber(ip, "." + fp + [e] + sign + es + rest)
         == Lexed(FloatLit(Parsed(ip + "." + fp + [e] + sign + es)), rest)
  {
    var t := "." + fp + [e] + sign + es + rest;
    assert t[0] == '.' && t[1..] == fp + [e] + sign + es + rest;
    NumberDot(ip, t);
    FractionExponent(ip + ".", fp, e, sign, es, rest);
    assert ip + "." + fp + [e] + sign + es == (ip + ".") + fp + [e] + sign + es;
  }

  /** `digits . digits e [sign] digits` */
  lemma {:induction false} LexFractionExponent(ip: string, fp: string, e: char, sign: string, es: string, rest: string)
    requires |ip| > 0 && AllDigits(ip, Dec) && |fp| > 0 && AllDigits(fp, Dec) && IsExpLetter(e)
    requires IsSign(sign) && |es| > 0 && AllDigits(es, Dec) && !IsDigit(Peek(rest))
    ensures GetToken(ip + "." + fp + [e] + sign + es + rest)
         == Lexed(FloatLit(Parsed(ip + "." + fp + [e] + sign + es)), rest)
  {
    var t := "." + fp + [e] + sign + es + rest;
    assert ip + "." + fp + [e] + sign + es + rest == ip + t;
    LexMantissa(ip, t);
    NumberFractionExponent(ip, fp, e, sign, es, rest);
  }

  lemma {:induction false} ScanFractionDigitsThenExp(buf: string, ds: string, rest: string)
    requires AllDigits(ds, Dec) && |rest| > 0 && IsExpLetter(rest[0])
    ensures ScanFraction(buf, ds + rest) == ScanExp(buf + ds + [rest[0]], rest[1..])
    decreases |ds|
  {
    if |ds| == 0 {
      assert ds + rest == rest && buf + ds == buf;
    } else {
      assert (ds + rest)[0] == ds[0];
      assert (ds + rest)[1..] == ds[1..] + rest;
      ScanFractionDigitsThenExp(buf + [ds[0]], ds[1..], rest);
      assert buf + [ds[0]] + ds[1..] == buf + ds;
    }
  }

  /** A `.` not followed by a digit is an error; the character read is consumed. */
  lemma FractionNeedsDigit(ip: string, rest: string)
    requires |ip| > 0 && AllDigits(ip, Dec) && !IsDigit(Peek(rest))
    ensures GetToken(ip + "." + rest) == Lexed(Null, Advance(rest))
  {
    assert ip + "." + rest == ip + ("." + rest);
    LexMantissa(ip, "." + rest);
    assert ("." + rest)[1..] == rest;
    NumberDot(ip, "." + rest);
  }

  /** After `e`/`E` there must be a sign or a digit, and after a sign a digit;
      otherwise the token is Null and the offending character is consumed. */
  lemma ExponentNeedsDigit(buf: string, sign: string, rest: string)
    requires IsSign(sign) && !IsDigit(Peek(rest))
    requires sign == "" ==> Peek(rest) != '+' as int && Peek(rest) != '-' as int
    ensures ScanExp(buf, sign + rest) == Lexed(Null, Advance(rest))
  {
    if sign == "" {
      assert sign + rest == rest;
    } else {
      assert (sign + rest)[0] == sign[0] && (sign + rest)[1..] == rest;
    }
  }

  lemma LexExponentNeedsDigit(ip: string, e: char, sign: string, rest: string)
    requires |ip| > 0 && AllDigits(ip, Dec) && IsExpLetter(e)
    requires IsSign(sign) && !IsDigit(Peek(rest))
    requires sign == "" ==> Peek(rest) != '+' as int && Peek(rest) != '-' as int
    ensures GetToken(ip + [e] + sign + rest) == Lexed(Null, Advance(rest))
  {
    Append4(ip, [e], sign, rest);
    LexMantissa(ip, [e] + sign + rest);
    NumberExpNeedsDigit(ip, e, sign, rest);
  }

  lemma NumberExpNeedsDigit(ip: string, e: char, sign: string, rest: string)
    requires AllDigits(ip, Dec) && IsExpLetter(e)
    requires IsSign(sign) && !IsDigit(Peek(rest))
    requires sign == "" ==> Peek(rest) != '+' as int && Peek(rest) != '-' as int
    ensures ScanNumber(ip, [e] + sign + rest) == Lexed(Null, Advance(rest))
  {
    var tail := [e] + sign + rest;
    assert tail[0] == e && tail[1..] == sign + rest;
    NumberExp(ip, tail);
    ExponentNeedsDigit(ip + [e], sign, rest);
  }

  // ---------------------------------------------------------------------------
  // String literals

  /** No two escape letters stand for the same character. */
  lemma EscapeDistinct(c: int, d: int)
    requires EscapeChar(c).Some? && EscapeChar(c) == EscapeChar(d)
    ensures c == d
  {
  }

  /** A character that stands for itself inside a string literal. */
  predicate IsPlain(c: char) {
    IsPrintable(c as int) && c != '"' && c != '\\'
  }

  predicate AllPlain(p: string) {
    forall i :: 0 <= i < |p| ==> IsPlain(p[i])
  }

  predicate IsByteString(p: string) {
    forall i :: 0 <= i < |p| ==> p[i] as int < 256
  }

  /** The letter a character is written with after a backslash, when it has
      one: the usual C control escapes, ESC as `\e`, and the two characters
      that cannot appear bare. */
  function EscapeLetter(c: char): Option<char> {
    match c
    case '\U{7}' => Some('a')
    case '\U{8}' => Some('b')
    case '\U{1B}' => Some('e')
    case '\U{C}' => Some('f')
    case '\n' => Some('n')
    case '\r' => Some('r')
    case '\t' => Some('t')
    case '\U{B}' => Some('v')
    case '\\' => Some('\\')
    case '"' => Some('"')
    case _ => None
  }

  /** The escape table read both ways: every letter above is read back as its
      character, and every escape the lexer accepts, apart from `\'` (a quote
      that needs no escape), is the one chosen above. */
  lemma EscapeTableInverse(c: char, x: int)
    ensures EscapeLetter(c).Some? ==> EscapeChar(EscapeLetter(c).value as int) == Some(c)
    ensures EscapeChar(x).Some? && x != '\'' as int ==>
      EscapeLetter(EscapeChar(x).value).Some? && EscapeLetter(EscapeChar(x).value).value as int == x
  {
  }

  /** The spelling of one payload character inside a literal: its escape
      letter after a backslash when it has one, itself when printable, and
      `\xHH` for anything else. */
  function EncodeChar(c: char): string
    requires c as int < 256
  {
    match EscapeLetter(c)
    case Some(l) => ['\\', l]
    case None =>
      if IsPrintable(c as int) then [c]
      else ['\\', 'x', DigitChar(c as int / 16), DigitChar(c as int % 16)]
  }

  /** A string literal body that lexes back to `p`. */
  function Encode(p: string): string
    requires IsByteString(p)
  {
    if |p| == 0 then "" else EncodeChar(p[0]) + Encode(p[1..])
  }

  lemma {:induction false} ScanPlain(buf: string, p: string, rest: string)
    requires AllPlain(p)
    ensures ScanString(buf, p + rest) == ScanString(buf + p, rest)
    decreases |p|
  {
    if |p| == 0 {
      assert p + rest == rest && buf + p == buf;
    } else {
      assert (p + rest)[0] == p[0] && (p + rest)[1..] == p[1..] + rest;
      ScanPlain(buf + [p[0]], p[1..], rest);
      assert buf + [p[0]] + p[1..] == buf + p;
    }
  }

  lemma {:induction false} ScanEncodedChar(buf: string, c: char, rest: string)
    requires c as int < 256
    ensures ScanString(buf, EncodeChar(c) + rest) == ScanString(buf + [c], rest)
  {
    if EscapeLetter(c).Some? {
      var l := EscapeLetter(c).value;
      assert EncodeChar(c) + rest == ['\\'] + ([l] + rest);
      BackslashStep(buf, [l] + rest);
      EscapedStep(buf, c, l, rest);
    } else if IsPrintable(c as int) {
      PrintableStep(buf, c, rest);
    } else {
      var d1, d2 := c as int / 16, c as int % 16;
      var h1, h2 := DigitChar(d1), DigitChar(d2);
      assert EncodeChar(c) + rest == ['\\'] + (['x'] + ([h1] + ([h2] + rest)));
      BackslashStep(buf, ['x'] + ([h1] + ([h2] + rest)));
      EscapeX(buf, [h1] + ([h2] + rest));
      HexFirstDigit(buf, d1, [h2] + rest);
      HexSecondDigit(buf, d1, d2, rest);
      assert (16 * d1 + d2) as char == c;
    }
  }

  /** A backslash in a string literal starts an escape. */
  lemma BackslashStep(buf: string, t: string)
    ensures ScanString(buf, ['\\'] + t) == ScanEscape(buf, t)
  {
    assert (['\\'] + t)[1..] == t;
  }

  /** An escape letter after the backslash stands for its character. */
  lemma EscapedStep(buf: string, c: char, l: char, rest: string)
    requires EscapeLetter(c) == Some(l)
    ensures ScanEscape(buf, [l] + rest) == ScanString(buf + [c], rest)
  {
    assert ([l] + rest)[1..] == rest;
    EscapeTableInverse(c, 0);
  }

  /** A printable character other than a quote or backslash stands for itself. */
  lemma PrintableStep(buf: string, c: char, rest: string)
    requires IsPrintable(c as int) && c != '"' && c != '\\'
    ensures ScanString(buf, [c] + rest) == ScanString(buf + [c], rest)
  {
    assert ([c] + rest)[1..] == rest;
  }

  /** `\x` starts a two-digit hexadecimal escape. */
  lemma EscapeX(buf: string, t: string)
    ensures ScanEscape(buf, ['x'] + t) == ScanEscapeHex1(buf, t)
  {
    assert (['x'] + t)[1..] == t;
  }

  lemma HexFirstDigit(buf: string, d: nat, t: string)
    requires d < 16
    ensures ScanEscapeHex1(buf, [DigitChar(d)] + t) == ScanEscapeHex2(buf, d, t)
  {
    assert ([DigitChar(d)] + t)[1..] == t;
  }

  lemma HexSecondDigit(buf: string, h: nat, d: nat, t: string)
    requires h < 16 && d < 16
    ensures ScanEscapeHex2(buf, h, [DigitChar(d)] + t) == ScanString(buf + [(16 * h + d) as char], t)
  {
    assert ([DigitChar(d)] + t)[1..] == t;
  }

  lemma {:induction false} ScanEncoded(buf: string, p: string, rest: string)
    requires IsByteString(p)
    ensures ScanString(buf, Encode(p) + "\"" + rest) == Lexed(Str(buf + p), rest)
    decreases |p|
  {
    if |p| == 0 {
      assert Encode(p) + "\"" + rest == "\"" + rest;
      assert buf + p == buf;
    } else {
      assert Encode(p) + "\"" + rest == EncodeChar(p[0]) + (Encode(p[1..]) + "\"" + rest);
      ScanEncodedChar(buf, p[0], Encode(p[1..]) + "\"" + rest);
      ScanEncoded(buf + [p[0]], p[1..], rest);
      assert buf + [p[0]] + p[1..] == buf + p;
    }
  }

  lemma {:induction false} StartString(s: string)
    requires |s| > 0 && s[0] == '"'
    ensures GetToken(s) == ScanString([], s[1..])
  {
  }

  /** Every byte string survives a trip through its literal spelling. */
  lemma {:induction false} StringRoundTrip(p: string, rest: string)
    requires IsByteString(p)
    ensures GetToken("\"" + Encode(p) + "\"" + rest) == Lexed(Str(p), rest)
  {
    var s := "\"" + Encode(p) + "\"" + rest;
    assert s[0] == '"' && s[1..] == Encode(p) + "\"" + rest;
    StartString(s);
    ScanEncoded([], p, rest);
    assert [] + p == p;
  }

  /** A control character (a raw newline included) inside a literal is an
      error; the lexer resumes after it. */
  lemma {:induction false} StringRejectsControl(p: string, c: char, rest: string)
    requires AllPlain(p) && !IsPrintable(c as int)
    ensures GetToken("\"" + p + [c] + rest) == Lexed(Null, rest)
  {
    var s := "\"" + p + [c] + rest;
    assert s[0] == '"' && s[1..] == p + ([c] + rest);
    StartString(s);
    ScanPlain([], p, [c] + rest);
    assert ([c] + rest)[1..] == rest;
  }

  /** A literal that reaches the end of the input is an error. */
  lemma {:induction false} StringUnterminated(p: string)
    requires AllPlain(p)
    ensures GetToken("\"" + p) == Lexed(Null, [])
  {
    var s := "\"" + p;
    assert s[0] == '"' && s[1..] == p + [];
    StartString(s);
    ScanPlain([], p, []);
  }

  /** A backslash before a character outside the escape table (other than
      `x`) is an error that consumes that character. */
  lemma {:induction false} StringRejectsEscape(p: string, c: char, rest: string)
    requires AllPlain(p) && EscapeChar(c as int).None? && c != 'x'
    ensures GetToken("\"" + p + "\\" + [c] + rest) == Lexed(Null, rest)
  {
    var s := "\"" + p + "\\" + [c] + rest;
    assert s[0] == '"' && s[1..] == p + ("\\" + [c] + rest);
    StartString(s);
    ScanPlain([], p, "\\" + [c] + rest);
    assert ("\\" + [c] + rest)[1..] == [c] + rest;
    assert ([c] + rest)[1..] == rest;
  }

  lemma {:induction false} ScanBadHex(buf: string, h: string, c: char, rest: string)
    requires |h| <= 1 && (|h| == 1 ==> IsDigitOf(ToLower(h[0] as int), Hex))
    requires !IsDigitOf(ToLower(c as int), Hex)
    ensures ScanString(buf, "\\x" + h + [c] + rest) == Lexed(Null, rest)
  {
    var t := h + [c] + rest;
    assert ("\\x" + h + [c] + rest) == "\\x" + t;
    assert ("\\x" + t)[0] == '\\' && ("\\x" + t)[1..] == "x" + t;
    assert ("x" + t)[0] == 'x' && ("x" + t)[1..] == t;
    assert ([c] + rest)[1..] == rest;
    assert ScanString(buf, "\\x" + t) == ScanEscape(buf, "x" + t);
    assert ScanEscape(buf, "x" + t) == ScanEscapeHex1(buf, t);
    if |h| == 1 {
      assert t[0] == h[0] && t[1..] == [c] + rest;
      assert ScanEscapeHex1(buf, t) == ScanEscapeHex2(buf, DigitValue(ToLower(h[0] as int)), [c] + rest);
    } else {
      assert t == [c] + rest;
    }
  }

  /** `\x` must be followed by two hexadecimal digits (either case). */
  lemma {:induction false} StringRejectsHex(p: string, h: string, c: char, rest: string)
    requires AllPlain(p) && |h| <= 1 && (|h| == 1 ==> IsDigitOf(ToLower(h[0] as int), Hex))
    requires !IsDigitOf(ToLower(c as int), Hex)
    ensures GetToken("\"" + p + "\\x" + h + [c] + rest) == Lexed(Null, rest)
  {
    var u := "\\x" + h + [c] + rest;
    var s := "\"" + p + "\\x" + h + [c] + rest;
    assert s[0] == '"' && s[1..] == p + u;
    StartString(s);
    ScanPlain([], p, u);
    ScanBadHex(p, h, c, rest);
    assert [] + p == p;
  }

  // ---------------------------------------------------------------------------
  // Comments

  predicate NoChar(t: string, c: char) {
    forall i :: 0 <= i < |t| ==> t[i] != c
  }

  lemma {:induction false} StartHash(s: string)
    requires |s| > 0 && s[0] == '#'
    ensures GetToken(s) == ScanStartComment(s[1..])
  {
  }

  lemma {:induction false} ScanCommentLine(line: string, rest: string)
    requires NoChar(line, '\n')
    ensures ScanComment(line + "\n" + rest) == ScanStart(rest)
    decreases |line|
  {
    var s := line + "\n" + rest;
    if |line| == 0 {
      assert s[0] == '\n' && s[1..] == rest;
    } else {
      assert s[0] == line[0] && s[1..] == line[1..] + "\n" + rest;
      ScanCommentLine(line[1..], rest);
    }
  }

  lemma {:induction false} ScanCommentToEnd(line: string)
    requires NoChar(line, '\n')
    ensures ScanComment(line) == Lexed(Eof, [])
    decreases |line|
  {
    if |line| > 0 {
      ScanCommentToEnd(line[1..]);
    }
  }

  /** `#` starts a comment that runs to the end of the line. */
  lemma {:induction false} LineComment(text: string, rest: string)
    requires NoChar(text, '\n') && |text| > 0 && text[0] != '#'
    ensures GetToken("#" + text + "\n" + rest) == GetToken(rest)
  {
    var s := "#" + text + "\n" + rest;
    assert s[0] == '#' && s[1..] == text + "\n" + rest;
    StartHash(s);
    assert s[1..][0] == text[0] && s[1..][1..] == text[1..] + "\n" + rest;
    ScanCommentLine(text[1..], rest);
  }

  /** The character after `#` is consumed unexamined, so an empty comment
      swallows its own newline and the comment goes on to the next one. */
  lemma {:induction false} LoneHash(line: string, rest: string)
    requires NoChar(line, '\n')
    ensures GetToken("#\n" + line + "\n" + rest) == GetToken(rest)
  {
    var s := "#\n" + line + "\n" + rest;
    assert s[0] == '#' && s[1..] == "\n" + line + "\n" + rest;
    StartHash(s);
    assert s[1..][0] == '\n' && s[1..][1..] == line + "\n" + rest;
    ScanCommentLine(line, rest);
  }

  /** A line comment on the last line ends the input. */
  lemma {:induction false} CommentAtEnd(text: string)
    requires NoChar(text, '\n') && (|text| == 0 || text[0] != '#')
    ensures GetToken("#" + text) == Lexed(Eof, [])
  {
    var s := "#" + text;
    assert s[0] == '#' && s[1..] == text;
    StartHash(s);
    if |text| > 0 {
      ScanCommentToEnd(text[1..]);
    }
  }

  lemma {:induction false} ScanBlockBody(body: string, rest: string)
    requires NoChar(body, '#')
    ensures ScanMulComment(body + "##" + rest) == ScanStart(rest)
    decreases |body|
  {
    var s := body + "##" + rest;
    if |body| == 0 {
      assert s[0] == '#' && s[1..] == "#" + rest;
      assert s[1..][0] == '#' && s[1..][1..] == rest;
    } else {
      assert s[0] == body[0] && s[1..] == body[1..] + "##" + rest;
      ScanBlockBody(body[1..], rest);
    }
  }

  lemma {:induction false} ScanBlockToEnd(body: string)
    requires NoChar(body, '#')
    ensures ScanMulComment(body) == Lexed(Eof, [])
    decreases |body|
  {
    if |body| > 0 {
      ScanBlockToEnd(body[1..]);
    }
  }

  /** `##` opens a comment that the next `##` closes. */
  lemma {:induction false} BlockComment(body: string, rest: string)
    requires NoChar(body, '#')
    ensures GetToken("##" + body + "##" + rest) == GetToken(rest)
  {
    var s := "##" + body + "##" + rest;
    assert s[0] == '#' && s[1..] == "#" + body + "##" + rest;
    StartHash(s);
    assert s[1..][0] == '#' && s[1..][1..] == body + "##" + rest;
    ScanBlockBody(body, rest);
  }

  /** An unterminated block comment runs to the end of the input. */
  lemma {:induction false} BlockCommentAtEnd(body: string)
    requires NoChar(body, '#')
    ensures GetToken("##" + body) == Lexed(Eof, [])
  {
    var s := "##" + body;
    assert s[0] == '#' && s[1..] == "#" + body;
    StartHash(s);
    assert s[1..][0] == '#' && s[1..][1..] == body;
    ScanBlockToEnd(body);
  }
}
