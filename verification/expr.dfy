/** The expression compiler `Parser::expr` (Parser_Expr.cpp) together with the
    argument rules `args` and `argsList` (Parser.cpp) it is mutually recursive
    with. The parser reads from a token sequence: the current token plus the
    tokens not yet fetched. */
module Expressions {
  import opened Tokens
  import opened Errors
  import opened Symbols
  import opened Evaluation

  // ---------------------------------------------------------------------------
  // Token input

  /** `getToken` on a token sequence: past the end every fetch yields Eof. */
  function Next(ts: seq<Token>): (r: (Token, seq<Token>))
    ensures |ts| == 0 ==> r == (Eof, [])
    ensures |ts| > 0 ==> r == (ts[0], ts[1..])
  {
    if |ts| == 0 then (Eof, []) else (ts[0], ts[1..])
  }

  /** Input left, counting a current token other than Eof as half a fetch.
      Every rule leaves this measure no larger than it found it. */
  function Measure(tok: Token, ts: seq<Token>): nat {
    2 * |ts| + (if tok.Eof? then 0 else 1)
  }

  // ---------------------------------------------------------------------------
  // Stacks of tokens

  /** Number of `(` tokens in a sequence. */
  function CountOpen(s: seq<Token>): nat {
    multiset(s)[LeftBracket]
  }

  /** The order in which a stack's entries come off it: top (last) first. */
  function Reverse(s: seq<Token>): (r: seq<Token>)
    ensures |r| == |s| && multiset(r) == multiset(s)
    ensures forall i :: 0 <= i < |s| ==> r[i] == s[|s| - 1 - i]
  {
    if |s| == 0 then []
    else
      assert s == s[..|s| - 1] + [s[|s| - 1]];
      [s[|s| - 1]] + Reverse(s[..|s| - 1])
  }

  /** A sequence none of whose entries is `(` contains no `(`. */
  lemma {:induction false} NoOpen(s: seq<Token>)
    requires forall j :: 0 <= j < |s| ==> !s[j].LeftBracket?
    ensures CountOpen(s) == 0
  {
    assert LeftBracket !in multiset(s);
  }

  // ---------------------------------------------------------------------------
  // Operator precedence (ParserExprOperation)

  /** The pairs for which the incoming operator binds tighter than the one on
      top of the stack: `*` and `/` over `+` and `-`, and the comparisons over
      all four arithmetic operators. */
  predicate Pushes(top: Token, incoming: Token) {
    || ((top.Plus? || top.Minus?) && (incoming.Mul? || incoming.Div? || incoming.IsComparison()))
    || ((top.Mul? || top.Div?) && incoming.IsComparison())
  }

  /** The stack entry `top` stays where it is when `incoming` arrives. */
  predicate Holds(top: Token, incoming: Token) {
    top.LeftBracket? || Pushes(top, incoming)
  }

  /** How much of the operator stack survives an incoming operator: entries
      are popped from the top until one holds it or the stack is empty. The
      result is the deepest point such that everything above it is popped. */
  function Kept(tok: Token, ops: seq<Token>): (k: nat)
    decreases |ops|
    ensures k <= |ops|
    ensures k == 0 || Holds(ops[k - 1], tok)
    ensures forall j :: k <= j < |ops| ==> !Holds(ops[j], tok)
  {
    if |ops| == 0 then 0
    else if Holds(ops[|ops| - 1], tok) then |ops|
    else
      var k := Kept(tok, ops[..|ops| - 1]);
      assert forall j :: k <= j < |ops| - 1 ==> ops[j] == ops[..|ops| - 1][j];
      k
  }

  /** `ParserExprOperation`: move the entries above the kept part of the
      operator stack to the output, top first, then push the operator. */
  function Operation(tok: Token, ops: seq<Token>, out: seq<Token>): (r: (seq<Token>, seq<Token>))
    ensures |r.0| >= 1 && r.0[|r.0| - 1] == tok && r.0[..|r.0| - 1] <= ops && out <= r.1
    ensures multiset(r.0) + multiset(r.1) == multiset(ops) + multiset(out) + multiset{tok}
    ensures forall i :: |r.0| - 1 <= i < |ops| ==> !Holds(ops[i], tok)
    ensures !tok.LeftBracket? ==> CountOpen(r.0) == CountOpen(ops) && CountOpen(r.1) == CountOpen(out)
  {
    var k := Kept(tok, ops);
    assert ops == ops[..k] + ops[k..];
    NoOpen(ops[k..]);
    (ops[..k] + [tok], out + Reverse(ops[k..]))
  }

  /** Position of the topmost `(` on the operator stack, -1 when there is none. */
  function LastOpen(ops: seq<Token>): (k: int)
    decreases |ops|
    ensures -1 <= k < |ops|
    ensures k >= 0 ==> ops[k].LeftBracket?
    ensures forall j :: k < j < |ops| ==> !ops[j].LeftBracket?
    ensures k == -1 <==> CountOpen(ops) == 0
  {
    if |ops| == 0 then -1
    else if ops[|ops| - 1].LeftBracket? then
      assert ops[|ops| - 1] in multiset(ops);
      |ops| - 1
    else
      var init := ops[..|ops| - 1];
      var k := LastOpen(init);
      assert ops == init + [ops[|ops| - 1]];
      assert forall j :: k < j < |ops| - 1 ==> ops[j] == init[j];
      k
  }

  /** `)` closing a group: move entries to the output until the topmost `(`,
      which is discarded. Used only while a `(` is on the stack. */
  function PopGroup(ops: seq<Token>, out: seq<Token>): (r: (seq<Token>, seq<Token>))
    requires CountOpen(ops) > 0
    ensures CountOpen(r.0) + 1 == CountOpen(ops) && r.0 <= ops
    ensures out <= r.1 && CountOpen(r.1) == CountOpen(out)
    ensures multiset(r.0) + multiset(r.1) + multiset{LeftBracket} == multiset(ops) + multiset(out)
  {
    var k := LastOpen(ops);
    var above := ops[k + 1..];
    NoOpen(above);
    assert ops == ops[..k] + [LeftBracket] + above;
    (ops[..k], out + Reverse(above))
  }

  // ---------------------------------------------------------------------------
  // The infix to postfix pass

  /** Operator stack, postfix output, bracket counter, whether the expression
      is still a constant, and the code emitted so far (by nested calls). */
  datatype Scan = Scan(ops: seq<Token>, out: seq<Token>, balance: nat, immediate: bool, code: seq<Instr>)

  const Start := Scan([], [], 0, true, [])

  /** The bracket counter equals the number of `(` on the operator stack. */
  predicate Balanced(sc: Scan) {
    sc.balance == CountOpen(sc.ops)
  }

  /** A token that ends the expression: anything other than data, `(`, an
      operator, or a `)` that closes a group opened inside the expression. */
  predicate Ends(tok: Token, balance: nat) {
    !tok.IsData() && !tok.LeftBracket? && !(tok.RightBracket? && balance != 0) && !tok.IsOperator()
  }

  /** The effect of a token that does not end the expression and is not a
      function name. */
  function Absorb(tok: Token, sc: Scan): (r: Scan)
    requires !Ends(tok, sc.balance) && Balanced(sc)
    ensures Balanced(r) && CountOpen(r.out) == CountOpen(sc.out) && r.code == sc.code
    ensures r.immediate == (sc.immediate && !tok.Id?)
    ensures tok.IsData() ==> r.out == sc.out + [tok] && r.ops == sc.ops
  {
    if tok.IsData() then
      sc.(out := sc.out + [tok], immediate := sc.immediate && !tok.Id?)
    else if tok.LeftBracket? then
      sc.(ops := sc.ops + [tok], balance := sc.balance + 1)
    else if tok.RightBracket? then
      var p := PopGroup(sc.ops, sc.out);
      sc.(ops := p.0, out := p.1, balance := sc.balance - 1)
    else
      var p := Operation(tok, sc.ops, sc.out);
      sc.(ops := p.0, out := p.1)
  }

  /** At the end of the expression every entry still on the stack, unmatched
      `(` included, is moved to the output. */
  function Drain(sc: Scan): (r: Scan)
    ensures r.ops == [] && r.balance == sc.balance && r.immediate == sc.immediate && r.code == sc.code
    ensures r.out == sc.out + Reverse(sc.ops)
    ensures CountOpen(r.out) == CountOpen(sc.out) + CountOpen(sc.ops)
  {
    sc.(ops := [], out := sc.out + Reverse(sc.ops))
  }

  /** Where the infix pass stopped: its error, the current token and input,
      and the state of the pass. */
  datatype Stop = Stop(err: Error, tok: Token, ts: seq<Token>, scan: Scan)

  /** What `expr`, `args` and `argsList` leave behind: the error, the current
      token and input, and the code emitted. */
  datatype Compiled = Compiled(err: Error, tok: Token, ts: seq<Token>, code: seq<Instr>)

  const UnknownName := SyntaxError("Refering to variable or function in expression that doesn't exists")
  const CallNeedsBracket := SyntaxError("Expected left bracket after function identificator")
  const BadBalance := SyntaxError("Invalid balance of parentheses")
  const ExpectedComma := SyntaxError("Expected \",\" after function argument")

  /** The `do … while` loop of `expr`: `tok` is the token being examined. */
  function InfixLoop(tok: Token, ts: seq<Token>, sc: Scan, t: Tables, fs: FloatSem): (r: Stop)
    requires Balanced(sc)
    decreases Measure(tok, ts), 1
    ensures Measure(r.tok, r.ts) <= Measure(tok, ts)
    ensures r.scan.immediate ==> sc.immediate && !tok.Id?
    ensures sc.code <= r.scan.code
    ensures !r.err.Failed() ==>
      && r.err == Success && Ends(r.tok, r.scan.balance) && r.scan.ops == []
      && CountOpen(r.scan.out) == CountOpen(sc.out) + r.scan.balance
    ensures r.err.Failed() ==> r.err in {UnknownName, CallNeedsBracket}
  {
    if Ends(tok, sc.balance) then
      Stop(Success, tok, ts, Drain(sc))
    else if tok.Id? && tok.name !in t.vars then
      CallSite(tok.name, ts, sc.(immediate := false), t, fs)
    else
      Shift(tok, ts, sc, t, fs)
  }

  /** A token other than a function name that does not end the expression:
      absorb it and fetch the next one. */
  function Shift(tok: Token, ts: seq<Token>, sc: Scan, t: Tables, fs: FloatSem): (r: Stop)
    requires Balanced(sc) && !Ends(tok, sc.balance)
    decreases Measure(tok, ts), 0
    ensures Measure(r.tok, r.ts) <= Measure(tok, ts)
    ensures r.scan.immediate ==> sc.immediate && !tok.Id?
    ensures sc.code <= r.scan.code
    ensures !r.err.Failed() ==>
      && r.err == Success && Ends(r.tok, r.scan.balance) && r.scan.ops == []
      && CountOpen(r.scan.out) == CountOpen(sc.out) + r.scan.balance
    ensures r.err.Failed() ==> r.err in {UnknownName, CallNeedsBracket}
  {
    var sc' := Absorb(tok, sc);
    var (t1, ts1) := Next(ts);
    InfixLoop(t1, ts1, sc', t, fs)
  }

  /** An identifier in an expression that is not a variable: it must name a
      function and be followed by `(`. The outcome of the arguments is
      ignored; the call's return value takes the identifier's place. */
  function CallSite(name: string, ts: seq<Token>, sc: Scan, t: Tables, fs: FloatSem): (r: Stop)
    requires Balanced(sc) && !sc.immediate
    decreases Measure(Id(name), ts), 0
    ensures Measure(r.tok, r.ts) <= Measure(Id(name), ts)
    ensures !r.scan.immediate && sc.code <= r.scan.code
    ensures !r.err.Failed() ==>
      && r.err == Success && Ends(r.tok, r.scan.balance) && r.scan.ops == []
      && CountOpen(r.scan.out) == CountOpen(sc.out) + r.scan.balance
    ensures r.err.Failed() ==> r.err in {UnknownName, CallNeedsBracket}
  {
    if name !in t.funcs then Stop(UnknownName, Id(name), ts, sc)
    else
      var (t1, ts1) := Next(ts);
      if !t1.LeftBracket? then Stop(CallNeedsBracket, t1, ts1, sc)
      else
        var a := Args(ts1, t, fs);
        var (t2, ts2) := Next(a.ts);
        InfixLoop(t2, ts2, sc.(out := sc.out + [Ret], code := sc.code + a.code + [Call(name)]), t, fs)
  }

  /** `Parser::expr(resOnStack)`: the current token is the first of the
      expression; the token that ended it is left as the current token. */
  function Expr(tok: Token, ts: seq<Token>, t: Tables, resOnStack: bool, fs: FloatSem): (r: Compiled)
    decreases Measure(tok, ts), 2
    ensures Measure(r.tok, r.ts) <= Measure(tok, ts)
    ensures !r.err.Failed() ==> r.err == Success && Ends(r.tok, 0)
  {
    var s := InfixLoop(tok, ts, Start, t, fs);
    if s.err.Failed() then Compiled(s.err, s.tok, s.ts, s.scan.code)
    else
      var sc := s.scan;
      match Run(sc.out, Machine([], 0, sc.code), sc.immediate, fs)
      case Fail(e) => Compiled(e, s.tok, s.ts, Emitted(sc.out, Machine([], 0, sc.code), sc.immediate, fs))
      case Done(m) =>
        match Finish(m, sc.immediate, resOnStack)
        case Fail(e) => Compiled(e, s.tok, s.ts, m.code)
        case Done(code) =>
          if sc.balance != 0 then Compiled(BadBalance, s.tok, s.ts, code)
          else Compiled(Success, s.tok, s.ts, code)
  }

  /** `Parser::args`, entered just after the `(` of a call: fetches the first
      token itself; each argument is compiled to be pushed on the stack. */
  function Args(ts: seq<Token>, t: Tables, fs: FloatSem): (r: Compiled)
    decreases 2 * |ts| + 1, 3
    ensures Measure(r.tok, r.ts) <= 2 * |ts|
    ensures !r.err.Failed() ==> r.err == Success && r.tok.RightBracket?
  {
    var (tok, ts1) := Next(ts);
    if tok.RightBracket? then Compiled(Success, tok, ts1, [])
    else
      var e := Expr(tok, ts1, t, true, fs);
      if e.err.Failed() then e
      else
        var l := ArgsList(e.tok, e.ts, t, fs);
        Compiled(l.err, l.tok, l.ts, e.code + l.code)
  }

  /** `Parser::argsList`: after an argument, `,` introduces another one and `)`
      ends the list. */
  function ArgsList(tok: Token, ts: seq<Token>, t: Tables, fs: FloatSem): (r: Compiled)
    decreases Measure(tok, ts), 3
    ensures Measure(r.tok, r.ts) <= Measure(tok, ts)
    ensures !r.err.Failed() ==> r.err == Success && r.tok.RightBracket?
    ensures !tok.Comma? && !tok.RightBracket? ==> r == Compiled(ExpectedComma, tok, ts, [])
  {
    if tok.Comma? then
      var (t1, ts1) := Next(ts);
      var e := Expr(t1, ts1, t, true, fs);
      if e.err.Failed() then e
      else
        var l := ArgsList(e.tok, e.ts, t, fs);
        Compiled(l.err, l.tok, l.ts, e.code + l.code)
    else if tok.RightBracket? then Compiled(Success, tok, ts, [])
    else Compiled(ExpectedComma, tok, ts, [])
  }
}
