/** What the expression compiler does with the tokens of a fully parenthesised
    expression tree, and the precedence and call rules of its infix pass. */
module ExpressionProps {
  import opened Types
  import opened Tokens
  import opened Errors
  import opened Symbols
  import opened Evaluation
  import opened EvaluationProps
  import opened Expressions

  /** The tokens of a tree with every operation in brackets: `(l op r)`. */
  function Render(a: Ast): seq<Token> {
    match a
    case Leaf(t) => [t]
    case Node(op, l, r) => [LeftBracket] + Render(l) + [op] + Render(r) + [RightBracket]
  }

  /** A tree the infix pass can read: literal or variable leaves, operator nodes. */
  predicate Plain(a: Ast, t: Tables) {
    match a
    case Leaf(x) => x.IsData() && (x.Id? ==> x.name in t.vars)
    case Node(op, l, r) => op.IsOperator() && Plain(l, t) && Plain(r, t)
  }

  predicate HasId(a: Ast) {
    match a
    case Leaf(x) => x.Id?
    case Node(_, l, r) => HasId(l) || HasId(r)
  }

  lemma {:induction false} PlainWellFormed(a: Ast, t: Tables)
    requires Plain(a, t)
    ensures WellFormed(a)
  {
    match a
    case Leaf(_) =>
    case Node(_, l, r) => PlainWellFormed(l, t); PlainWellFormed(r, t);
  }

  lemma {:induction false} IntTreePlain(a: Ast, t: Tables)
    requires IntTree(a)
    ensures Plain(a, t) && !HasId(a)
  {
    match a
    case Leaf(_) =>
    case Node(_, l, r) => IntTreePlain(l, t); IntTreePlain(r, t);
  }

  lemma {:induction false} NextCons(x: Token, s: seq<Token>)
    ensures Next([x] + s) == (x, s)
  {
    assert ([x] + s)[1..] == s;
  }

  /** A token that neither ends the expression nor names a function is absorbed
      and the next one fetched. */
  lemma ShiftStep(tok: Token, ts: seq<Token>, sc: Scan, t: Tables, fs: FloatSem)
    requires Balanced(sc) && !Ends(tok, sc.balance) && !(tok.Id? && tok.name !in t.vars)
    ensures InfixLoop(tok, ts, sc, t, fs) == InfixLoop(Next(ts).0, Next(ts).1, Absorb(tok, sc), t, fs)
  {
  }

  /** The scan state after the tokens of a tree: the tree's postfix form is
      appended to the output and the operator stack is as it was. */
  function After(a: Ast, sc: Scan): Scan {
    sc.(out := sc.out + Postfix(a), immediate := sc.immediate && !HasId(a))
  }

  /** Reading the tokens of a parenthesised tree appends its postfix form to
      the output, whatever follows it. */
  lemma {:induction false} InfixRendered(a: Ast, rest: seq<Token>, sc: Scan, t: Tables, fs: FloatSem)
    requires Plain(a, t) && Balanced(sc)
    decreases a, 1
    ensures InfixLoop(Next(Render(a) + rest).0, Next(Render(a) + rest).1, sc, t, fs)
         == InfixLoop(Next(rest).0, Next(rest).1, After(a, sc), t, fs)
  {
    match a
    case Leaf(x) =>
      LeafStep(x, rest, sc, t, fs);
    case Node(op, l, r) =>
      LeftHalf(op, l, r, rest, sc, t, fs);
      RightHalf(op, l, r, rest, sc, t, fs);
  }

  /** The state inside a node's brackets once `(` has been read. */
  function Opened(sc: Scan): Scan {
    sc.(ops := sc.ops + [LeftBracket], balance := sc.balance + 1)
  }

  /** The state inside a node's brackets once its left operand and its
      operator have been read: the operator waits above the `(`. */
  function Pending(op: Token, l: Ast, sc: Scan): Scan {
    After(l, Opened(sc)).(ops := sc.ops + [LeftBracket] + [op])
  }

  /** `(`, the left operand and the operator of a node. */
  lemma {:induction false} LeftHalf(op: Token, l: Ast, r: Ast, rest: seq<Token>, sc: Scan, t: Tables, fs: FloatSem)
    requires Plain(Node(op, l, r), t) && Balanced(sc)
    decreases Node(op, l, r), 0
    ensures var right := Render(r) + ([RightBracket] + rest);
      InfixLoop(Next(Render(Node(op, l, r)) + rest).0, Next(Render(Node(op, l, r)) + rest).1, sc, t, fs)
      == InfixLoop(Next(right).0, Next(right).1, Pending(op, l, sc), t, fs)
  {
    var right := Render(r) + ([RightBracket] + rest);
    OpenStep(op, l, r, rest, sc, t, fs);
    InfixRendered(l, [op] + right, Opened(sc), t, fs);
    OperatorStep(op, right, After(l, Opened(sc)), t, fs);
  }

  /** The right operand and the `)` of a node. */
  lemma {:induction false} RightHalf(op: Token, l: Ast, r: Ast, rest: seq<Token>, sc: Scan, t: Tables, fs: FloatSem)
    requires Plain(Node(op, l, r), t) && Balanced(sc)
    decreases Node(op, l, r), 0
    ensures var right := Render(r) + ([RightBracket] + rest);
      InfixLoop(Next(right).0, Next(right).1, Pending(op, l, sc), t, fs)
      == InfixLoop(Next(rest).0, Next(rest).1, After(Node(op, l, r), sc), t, fs)
  {
    InfixRendered(r, [RightBracket] + rest, Pending(op, l, sc), t, fs);
    CloseStep(op, l, r, rest, sc, t, fs);
  }

  /** A leaf: an operand, or a variable. */
  lemma LeafStep(x: Token, rest: seq<Token>, sc: Scan, t: Tables, fs: FloatSem)
    requires Plain(Leaf(x), t) && Balanced(sc)
    ensures InfixLoop(Next(Render(Leaf(x)) + rest).0, Next(Render(Leaf(x)) + rest).1, sc, t, fs)
         == InfixLoop(Next(rest).0, Next(rest).1, After(Leaf(x), sc), t, fs)
  {
    assert Render(Leaf(x)) + rest == [x] + rest;
    NextCons(x, rest);
    assert Absorb(x, sc) == After(Leaf(x), sc);
    ShiftStep(x, rest, sc, t, fs);
  }

  /** The opening `(` of a node. */
  lemma OpenStep(op: Token, l: Ast, r: Ast, rest: seq<Token>, sc: Scan, t: Tables, fs: FloatSem)
    requires Balanced(sc)
    ensures var x := Render(l) + ([op] + (Render(r) + ([RightBracket] + rest)));
      InfixLoop(Next(Render(Node(op, l, r)) + rest).0, Next(Render(Node(op, l, r)) + rest).1, sc, t, fs)
      == InfixLoop(Next(x).0, Next(x).1, Opened(sc), t, fs)
  {
    var x := Render(l) + ([op] + (Render(r) + ([RightBracket] + rest)));
    RenderNode(op, l, r, rest);
    NextCons(LeftBracket, x);
    AbsorbOpen(sc);
    ShiftStep(LeftBracket, x, sc, t, fs);
  }

  /** The operator of a node, right after its left operand. */
  lemma OperatorStep(op: Token, right: seq<Token>, sc: Scan, t: Tables, fs: FloatSem)
    requires op.IsOperator() && Balanced(sc) && |sc.ops| > 0 && sc.ops[|sc.ops| - 1].LeftBracket?
    ensures InfixLoop(Next([op] + right).0, Next([op] + right).1, sc, t, fs)
         == InfixLoop(Next(right).0, Next(right).1, sc.(ops := sc.ops + [op]), t, fs)
  {
    NextCons(op, right);
    ShiftOver(op, right, sc, t, fs);
  }

  /** The closing `)` of a node, right after its right operand. */
  lemma CloseStep(op: Token, l: Ast, r: Ast, rest: seq<Token>, sc: Scan, t: Tables, fs: FloatSem)
    requires op.IsOperator() && Balanced(sc)
    ensures InfixLoop(Next([RightBracket] + rest).0, Next([RightBracket] + rest).1, After(r, Pending(op, l, sc)), t, fs)
         == InfixLoop(Next(rest).0, Next(rest).1, After(Node(op, l, r), sc), t, fs)
  {
    var sc4 := After(r, Pending(op, l, sc));
    NextCons(RightBracket, rest);
    InfixClose(op, rest, sc4, sc.ops, t, fs);
    AfterNode(op, l, r, sc);
  }

  lemma RenderNode(op: Token, l: Ast, r: Ast, rest: seq<Token>)
    ensures Render(Node(op, l, r)) + rest == [LeftBracket] + (Render(l) + ([op] + (Render(r) + ([RightBracket] + rest))))
  {
  }

  lemma AbsorbOpen(sc: Scan)
    requires Balanced(sc)
    ensures Absorb(LeftBracket, sc) == Opened(sc)
  {
  }

  /** The scan state after the brackets, both operands and the operator. */
  lemma AfterNode(op: Token, l: Ast, r: Ast, sc: Scan)
    ensures var sc4 := After(r, Pending(op, l, sc));
      sc4.(ops := sc.ops, out := sc4.out + [op], balance := sc4.balance - 1) == After(Node(op, l, r), sc)
  {
    assert sc.out + Postfix(l) + Postfix(r) + [op] == sc.out + Postfix(Node(op, l, r));
  }

  /** `)` with an operator above the matching `(` moves the operator to the output. */
  lemma {:induction false} InfixClose(op: Token, ts: seq<Token>, sc: Scan, below: seq<Token>, t: Tables, fs: FloatSem)
    requires op.IsOperator() && Balanced(sc) && sc.ops == below + [LeftBracket] + [op]
    ensures InfixLoop(RightBracket, ts, sc, t, fs)
         == InfixLoop(Next(ts).0, Next(ts).1, sc.(ops := below, out := sc.out + [op], balance := sc.balance - 1), t, fs)
  {
    AbsorbClose(op, sc, below);
    ShiftStep(RightBracket, ts, sc, t, fs);
  }

  lemma AbsorbClose(op: Token, sc: Scan, below: seq<Token>)
    requires op.IsOperator() && Balanced(sc) && sc.ops == below + [LeftBracket] + [op]
    ensures sc.balance > 0
    ensures Absorb(RightBracket, sc) == sc.(ops := below, out := sc.out + [op], balance := sc.balance - 1)
  {
    PopGroupOperator(below, op, sc.out);
  }

  lemma {:induction false} PopGroupOperator(below: seq<Token>, op: Token, out: seq<Token>)
    requires op.IsOperator()
    ensures CountOpen(below + [LeftBracket] + [op]) > 0
    ensures PopGroup(below + [LeftBracket] + [op], out) == (below, out + [op])
  {
    var ops := below + [LeftBracket] + [op];
    assert ops[|below|] == LeftBracket;
    assert ops[..|ops| - 1] == below + [LeftBracket];
    assert LastOpen(below + [LeftBracket]) == |below|;
    assert LastOpen(ops) == |below|;
    assert ops[|below| + 1..] == [op];
    assert ops[..|below|] == below;
    assert Reverse([op]) == [op] by { assert [op][..0] == []; }
  }

  /** The infix pass stops at a terminator once the brackets are closed. */
  lemma InfixEnds(tok: Token, ts: seq<Token>, sc: Scan, t: Tables, fs: FloatSem)
    requires Balanced(sc) && sc.ops == [] && sc.balance == 0 && Ends(tok, 0)
    ensures InfixLoop(tok, ts, sc, t, fs) == Stop(Success, tok, ts, sc)
  {
    assert sc.out + Reverse([]) == sc.out;
  }

  /** The infix pass over a rendered tree followed by a terminator: the queue
      is the tree's postfix form and the stack is left empty. */
  lemma RenderedQueue(a: Ast, rest: seq<Token>, t: Tables, fs: FloatSem)
    requires Plain(a, t) && Ends(Next(rest).0, 0)
    ensures InfixLoop(Next(Render(a) + rest).0, Next(Render(a) + rest).1, Start, t, fs)
         == Stop(Success, Next(rest).0, Next(rest).1, Scan([], Postfix(a), 0, !HasId(a), []))
  {
    InfixRendered(a, rest, Start, t, fs);
    InfixEnds(Next(rest).0, Next(rest).1, After(a, Start), t, fs);
    assert [] + Postfix(a) == Postfix(a);
  }

  /** End to end, an expression over variables: the compiled code is the
      reference register code followed by `push(r0)` when the value is wanted
      on the stack, and the expression is rejected exactly when it needs more
      registers than there are, after printing the part of that code that
      came before the load with no free register. */
  lemma CompileVariables(a: Ast, rest: seq<Token>, t: Tables, resOnStack: bool, fs: FloatSem)
    requires Plain(a, t) && HasId(a) && Ends(Next(rest).0, 0)
    ensures var c := Expr(Next(Render(a) + rest).0, Next(Render(a) + rest).1, t, resOnStack, fs);
      if Need(a) <= ArchRegNum
      then c == Compiled(Success, Next(rest).0, Next(rest).1, Codegen(a, 0) + (if resOnStack then [PushR0] else []))
      else c.err == TooComplex && c.tok == Next(rest).0 && c.ts == Next(rest).1 && c.code < Codegen(a, 0)
  {
    RenderedQueue(a, rest, t, fs);
    VariableQueue(Next(Render(a) + rest).0, Next(Render(a) + rest).1, a, Next(rest).0, Next(rest).1, t, resOnStack, fs);
  }

  /** Once the infix pass has produced the queue of a tree with a variable,
      `expr` emits the tree's register code. */
  lemma VariableQueue(tok: Token, ts: seq<Token>, a: Ast, e: Token, rest: seq<Token>, t: Tables, resOnStack: bool, fs: FloatSem)
    requires Plain(a, t) && HasId(a)
    requires InfixLoop(tok, ts, Start, t, fs) == Stop(Success, e, rest, Scan([], Postfix(a), 0, false, []))
    ensures var c := Expr(tok, ts, t, resOnStack, fs);
      if Need(a) <= ArchRegNum
      then c == Compiled(Success, e, rest, Codegen(a, 0) + (if resOnStack then [PushR0] else []))
      else c.err == TooComplex && c.tok == e && c.ts == rest && c.code < Codegen(a, 0)
  {
    PlainWellFormed(a, t);
    RegisterMode(a, Machine([], 0, []), fs);
    EmittedRegister(a, Machine([], 0, []), fs);
    assert [] + Codegen(a, 0) == Codegen(a, 0);
    assert [] + [Top(a)] == [Top(a)];
  }

  /** End to end, an integer constant expression: it folds to the tree's value,
      which is pushed (or loaded into r0) with no other code; a division by zero
      is rejected. */
  lemma CompileConstant(a: Ast, rest: seq<Token>, t: Tables, resOnStack: bool, fs: FloatSem)
    requires IntTree(a) && Need(a) <= ArchRegNum && Ends(Next(rest).0, 0)
    ensures Expr(Next(Render(a) + rest).0, Next(Render(a) + rest).1, t, resOnStack, fs)
         == match Value(a)
            case None => Compiled(DivideByZero, Next(rest).0, Next(rest).1, [])
            case Some(v) => Compiled(Success, Next(rest).0, Next(rest).1,
                                     [if resOnStack then PushConst(IntLit(v)) else SetR0(IntLit(v))])
  {
    IntTreePlain(a, t);
    RenderedQueue(a, rest, t, fs);
    ConstantQueue(Next(Render(a) + rest).0, Next(Render(a) + rest).1, a, Next(rest).0, Next(rest).1, t, resOnStack, fs);
  }

  /** Once the infix pass has produced the queue of an integer tree, `expr`
      emits the tree's folded value. */
  lemma ConstantQueue(tok: Token, ts: seq<Token>, a: Ast, e: Token, rest: seq<Token>, t: Tables, resOnStack: bool, fs: FloatSem)
    requires IntTree(a) && Need(a) <= ArchRegNum
    requires InfixLoop(tok, ts, Start, t, fs) == Stop(Success, e, rest, Scan([], Postfix(a), 0, true, []))
    ensures Expr(tok, ts, t, resOnStack, fs)
         == match Value(a)
            case None => Compiled(DivideByZero, e, rest, [])
            case Some(v) => Compiled(Success, e, rest, [if resOnStack then PushConst(IntLit(v)) else SetR0(IntLit(v))])
  {
    ImmediateMode(a, Machine([], 0, []), fs);
    EmittedImmediate(a, Machine([], 0, []), fs);
  }

  // ---------------------------------------------------------------------------
  // Argument lists

  /** Arguments over variables that each fit the registers. */
  predicate FitArgs(args: seq<Ast>, t: Tables) {
    forall i :: 0 <= i < |args| ==> Plain(args[i], t) && HasId(args[i]) && Need(args[i]) <= ArchRegNum
  }

  /** The arguments written out, separated by `,`. */
  function ArgList(args: seq<Ast>): seq<Token> {
    if |args| == 0 then [] else Render(args[0]) + MoreArgs(args[1..])
  }

  /** Further arguments, each after its `,`. */
  function MoreArgs(args: seq<Ast>): seq<Token> {
    if |args| == 0 then [] else [Comma] + Render(args[0]) + MoreArgs(args[1..])
  }

  /** Reference code of an argument list: each argument's register code and
      `push(r0)`, in order. */
  function ArgsCode(args: seq<Ast>): seq<Instr> {
    if |args| == 0 then [] else Codegen(args[0], 0) + [PushR0] + ArgsCode(args[1..])
  }

  /** `args` over `a1 , … , an )` pushes every argument in order and stops
      on the `)`. */
  lemma {:induction false} ArgsCompiled(args: seq<Ast>, rest: seq<Token>, t: Tables, fs: FloatSem)
    requires FitArgs(args, t)
    ensures Args(ArgList(args) + [RightBracket] + rest, t, fs) == Compiled(Success, RightBracket, rest, ArgsCode(args))
  {
    if |args| == 0 {
      assert ArgList(args) + [RightBracket] + rest == [RightBracket] + rest;
      NextCons(RightBracket, rest);
    } else {
      var a, tail := args[0], MoreArgs(args[1..]) + [RightBracket] + rest;
      assert ArgList(args) + [RightBracket] + rest == Render(a) + tail;
      RenderStarts(a, tail, t);
      ListHead(args[1..], rest);
      CompileVariables(a, tail, t, true, fs);
      assert FitArgs(args[1..], t) by {
        forall i | 0 <= i < |args[1..]| ensures Plain(args[1..][i], t) && HasId(args[1..][i]) && Need(args[1..][i]) <= ArchRegNum {
          assert args[1..][i] == args[i + 1];
        }
      }
      ArgsListCompiled(args[1..], rest, t, fs);
    }
  }

  /** `argsList` over `, a1 , … , an )` pushes every argument in order and
      stops on the `)`. */
  lemma {:induction false} ArgsListCompiled(args: seq<Ast>, rest: seq<Token>, t: Tables, fs: FloatSem)
    requires FitArgs(args, t)
    decreases |args|
    ensures var ts := MoreArgs(args) + [RightBracket] + rest;
      ArgsList(Next(ts).0, Next(ts).1, t, fs) == Compiled(Success, RightBracket, rest, ArgsCode(args))
  {
    if |args| == 0 {
      assert MoreArgs(args) + [RightBracket] + rest == [RightBracket] + rest;
      NextCons(RightBracket, rest);
    } else {
      var a, tail := args[0], MoreArgs(args[1..]) + [RightBracket] + rest;
      assert MoreArgs(args) + [RightBracket] + rest == [Comma] + (Render(a) + tail);
      NextCons(Comma, Render(a) + tail);
      ListHead(args[1..], rest);
      CompileVariables(a, tail, t, true, fs);
      assert FitArgs(args[1..], t) by {
        forall i | 0 <= i < |args[1..]| ensures Plain(args[1..][i], t) && HasId(args[1..][i]) && Need(args[1..][i]) <= ArchRegNum {
          assert args[1..][i] == args[i + 1];
        }
      }
      ArgsListCompiled(args[1..], rest, t, fs);
    }
  }

  /** After an argument comes `,` or the closing `)`, both of which end it. */
  lemma ListHead(args: seq<Ast>, rest: seq<Token>)
    ensures var h := Next(MoreArgs(args) + [RightBracket] + rest).0;
      (h == Comma || h == RightBracket) && Ends(h, 0)
  {
    if |args| == 0 {
      assert MoreArgs(args) + [RightBracket] + rest == [RightBracket] + rest;
    } else {
      assert MoreArgs(args) + [RightBracket] + rest == [Comma] + (Render(args[0]) + MoreArgs(args[1..]) + [RightBracket] + rest);
    }
  }

  /** A rendered tree starts with `(` or its leaf, never with `)`. */
  lemma RenderStarts(a: Ast, tail: seq<Token>, t: Tables)
    requires Plain(a, t)
    ensures !Next(Render(a) + tail).0.RightBracket?
  {
    match a
    case Leaf(x) =>
      NextCons(x, tail);
    case Node(op, l, r) =>
      assert Render(a) + tail == [LeftBracket] + (Render(l) + [op] + Render(r) + [RightBracket] + tail);
  }

  // ---------------------------------------------------------------------------
  // The precedence table

  /** Binding strength: `+ -` below `* /` below the comparisons. */
  function Rank(op: Token): nat
    requires op.IsOperator()
  {
    if op.Plus? || op.Minus? then 1 else if op.Mul? || op.Div? then 2 else 3
  }

  /** The pairwise table amounts to a strict order on three levels: an
      operator is pushed over an operator of a lower level, and pops one of
      the same or a higher level; a `(` holds every operator. */
  lemma PrecedenceByRank(top: Token, incoming: Token)
    requires incoming.IsOperator() && (top.IsOperator() || top.LeftBracket?)
    ensures top.IsOperator() ==> (Pushes(top, incoming) <==> Rank(top) < Rank(incoming))
    ensures Holds(top, incoming) <==> top.LeftBracket? || Rank(top) < Rank(incoming)
  {
  }

  // ---------------------------------------------------------------------------
  // Precedence without brackets

  /** An operand is appended to the output. */
  lemma ShiftOperand(x: Token, ts: seq<Token>, sc: Scan, t: Tables, fs: FloatSem)
    requires Balanced(sc) && (x.IntLit? || x.FloatLit? || x.Str?)
    ensures InfixLoop(x, ts, sc, t, fs) == InfixLoop(Next(ts).0, Next(ts).1, sc.(out := sc.out + [x]), t, fs)
  {
  }

  /** An operator that binds tighter than the one on top of the stack (or
      follows a `(`) is pushed over it. */
  lemma ShiftOver(op: Token, ts: seq<Token>, sc: Scan, t: Tables, fs: FloatSem)
    requires op.IsOperator() && Balanced(sc) && |sc.ops| > 0 && Holds(sc.ops[|sc.ops| - 1], op)
    ensures InfixLoop(op, ts, sc, t, fs) == InfixLoop(Next(ts).0, Next(ts).1, sc.(ops := sc.ops + [op]), t, fs)
  {
    AbsorbOver(op, sc);
    ShiftStep(op, ts, sc, t, fs);
  }

  lemma AbsorbOver(op: Token, sc: Scan)
    requires op.IsOperator() && Balanced(sc) && |sc.ops| > 0 && Holds(sc.ops[|sc.ops| - 1], op)
    ensures Absorb(op, sc) == sc.(ops := sc.ops + [op])
  {
    assert Kept(op, sc.ops) == |sc.ops|;
    assert sc.ops[..|sc.ops|] == sc.ops && sc.ops[|sc.ops|..] == [];
    assert sc.out + Reverse([]) == sc.out;
  }

  /** An operator that does not bind tighter than the single entry on the
      stack replaces it, moving it to the output. */
  lemma ShiftUnder(op: Token, ts: seq<Token>, sc: Scan, t: Tables, fs: FloatSem)
    requires op.IsOperator() && Balanced(sc) && sc.balance == 0 && |sc.ops| == 1 && !Holds(sc.ops[0], op)
    ensures InfixLoop(op, ts, sc, t, fs) == InfixLoop(Next(ts).0, Next(ts).1, sc.(ops := [op], out := sc.out + sc.ops), t, fs)
  {
    AbsorbUnder(op, sc);
    ShiftStep(op, ts, sc, t, fs);
  }

  lemma AbsorbUnder(op: Token, sc: Scan)
    requires op.IsOperator() && Balanced(sc) && sc.balance == 0 && |sc.ops| == 1 && !Holds(sc.ops[0], op)
    ensures Absorb(op, sc) == sc.(ops := [op], out := sc.out + sc.ops)
  {
    OperationUnder(op, sc.ops, sc.out);
  }

  lemma OperationUnder(op: Token, ops: seq<Token>, out: seq<Token>)
    requires |ops| == 1 && !Holds(ops[0], op)
    ensures Operation(op, ops, out) == ([op], out + ops)
  {
    assert Kept(op, ops) == 0 by { assert ops[..0] == []; }
    assert Reverse(ops) == ops by { assert ops[..0] == []; }
    assert ops[..0] + [op] == [op] && ops[0..] == ops;
  }

  /** An operator on an empty stack is pushed. */
  lemma ShiftFirst(op: Token, ts: seq<Token>, sc: Scan, t: Tables, fs: FloatSem)
    requires op.IsOperator() && Balanced(sc) && sc.ops == []
    ensures InfixLoop(op, ts, sc, t, fs) == InfixLoop(Next(ts).0, Next(ts).1, sc.(ops := [op]), t, fs)
  {
    AbsorbFirst(op, sc);
    ShiftStep(op, ts, sc, t, fs);
  }

  lemma AbsorbFirst(op: Token, sc: Scan)
    requires op.IsOperator() && Balanced(sc) && sc.ops == []
    ensures Absorb(op, sc) == sc.(ops := [op])
  {
    assert sc.out + Reverse([]) == sc.out;
  }

  lemma OperandCons(x: Token, y: Token, ts: seq<Token>, sc: Scan, t: Tables, fs: FloatSem)
    requires Balanced(sc) && x.IntLit?
    ensures InfixLoop(x, [y] + ts, sc, t, fs) == InfixLoop(y, ts, sc.(out := sc.out + [x]), t, fs)
  {
    NextCons(y, ts);
    ShiftOperand(x, [y] + ts, sc, t, fs);
  }

  lemma FirstCons(op: Token, y: Token, ts: seq<Token>, sc: Scan, t: Tables, fs: FloatSem)
    requires op.IsOperator() && Balanced(sc) && sc.ops == []
    ensures InfixLoop(op, [y] + ts, sc, t, fs) == InfixLoop(y, ts, sc.(ops := [op]), t, fs)
  {
    NextCons(y, ts);
    ShiftFirst(op, [y] + ts, sc, t, fs);
  }

  lemma OverCons(op: Token, y: Token, ts: seq<Token>, sc: Scan, t: Tables, fs: FloatSem)
    requires op.IsOperator() && Balanced(sc) && |sc.ops| > 0 && Holds(sc.ops[|sc.ops| - 1], op)
    ensures InfixLoop(op, [y] + ts, sc, t, fs) == InfixLoop(y, ts, sc.(ops := sc.ops + [op]), t, fs)
  {
    NextCons(y, ts);
    ShiftOver(op, [y] + ts, sc, t, fs);
  }

  lemma UnderCons(op: Token, y: Token, ts: seq<Token>, sc: Scan, t: Tables, fs: FloatSem)
    requires op.IsOperator() && Balanced(sc) && sc.balance == 0 && |sc.ops| == 1 && !Holds(sc.ops[0], op)
    ensures InfixLoop(op, [y] + ts, sc, t, fs) == InfixLoop(y, ts, sc.(ops := [op], out := sc.out + sc.ops), t, fs)
  {
    NextCons(y, ts);
    ShiftUnder(op, [y] + ts, sc, t, fs);
  }

  /** The terminator: what is left on the stack goes to the output, top first. */
  lemma EndTwo(e: Token, rest: seq<Token>, sc: Scan, t: Tables, fs: FloatSem)
    requires Balanced(sc) && sc.balance == 0 && Ends(e, 0) && |sc.ops| == 2
    ensures InfixLoop(e, rest, sc, t, fs) == Stop(Success, e, rest, sc.(ops := [], out := sc.out + [sc.ops[1], sc.ops[0]]))
  {
    assert Reverse(sc.ops) == [sc.ops[1], sc.ops[0]];
  }

  lemma EndOne(e: Token, rest: seq<Token>, sc: Scan, t: Tables, fs: FloatSem)
    requires Balanced(sc) && sc.balance == 0 && Ends(e, 0) && |sc.ops| == 1
    ensures InfixLoop(e, rest, sc, t, fs) == Stop(Success, e, rest, sc.(ops := [], out := sc.out + sc.ops))
  {
    assert Reverse(sc.ops) == sc.ops;
  }

  /** `x op` at the start of an expression: the operand goes to the output
      and the operator onto the empty stack. */
  lemma {:induction false} StartPair(a: Token, op: Token, b: Token, ts: seq<Token>, t: Tables, fs: FloatSem)
    requires a.IntLit? && op.IsOperator()
    ensures InfixLoop(a, [op] + ([b] + ts), Start, t, fs) == InfixLoop(b, ts, Scan([op], [a], 0, true, []), t, fs)
  {
    StartOperand(a, op, [b] + ts, t, fs);
    FirstOperator(a, op, b, ts, t, fs);
  }

  lemma StartOperand(a: Token, y: Token, ts: seq<Token>, t: Tables, fs: FloatSem)
    requires a.IntLit?
    ensures InfixLoop(a, [y] + ts, Start, t, fs) == InfixLoop(y, ts, Scan([], [a], 0, true, []), t, fs)
  {
    OperandCons(a, y, ts, Start, t, fs);
    assert Start.(out := Start.out + [a]) == Scan([], [a], 0, true, []);
  }

  lemma FirstOperator(a: Token, op: Token, b: Token, ts: seq<Token>, t: Tables, fs: FloatSem)
    requires op.IsOperator()
    ensures InfixLoop(op, [b] + ts, Scan([], [a], 0, true, []), t, fs) == InfixLoop(b, ts, Scan([op], [a], 0, true, []), t, fs)
  {
    FirstCons(op, b, ts, Scan([], [a], 0, true, []), t, fs);
    NoOpen([op]);
  }

  /** `x op y` at the start of an expression: both operands go to the
      output and the operator waits on the stack. */
  lemma {:induction false} PairStart(a: Token, op: Token, b: Token, y: Token, ts: seq<Token>, t: Tables, fs: FloatSem)
    requires a.IntLit? && b.IntLit? && op.IsOperator()
    ensures InfixLoop(a, [op] + ([b] + ([y] + ts)), Start, t, fs)
         == InfixLoop(y, ts, Scan([op], [a, b], 0, true, []), t, fs)
  {
    StartPair(a, op, b, [y] + ts, t, fs);
    NoOpen([op]);
    OperandCons(b, y, ts, Scan([op], [a], 0, true, []), t, fs);
    Snoc2(a, b);
  }

  /** Short displays joined; stated apart so that the proofs about the
      infix pass need no sequence extensionality of their own. */
  lemma Snoc2<T>(a: T, b: T)
    ensures [a] + [b] == [a, b]
  {
  }

  lemma Snoc3<T>(a: T, b: T, c: T)
    ensures [a, b] + [c] == [a, b, c]
  {
  }

  lemma Snoc4<T>(a: T, b: T, c: T, d: T)
    ensures [a, b, c] + [d] == [a, b, c, d]
  {
  }

  lemma Snoc5<T>(a: T, b: T, c: T, d: T, e: T)
    ensures [a, b, c, d] + [e] == [a, b, c, d, e]
  {
  }

  lemma Append32<T>(a: T, b: T, c: T, d: T, e: T)
    ensures [a, b, c] + [d, e] == [a, b, c, d, e]
  {
  }

  lemma Cons2<T>(a: T, b: T, rest: seq<T>)
    ensures [a, b] + rest == [a] + ([b] + rest)
  {
  }

  /** Five tokens in front of a remainder, regrouped one by one. */
  lemma Regroup5<T>(p: T, q: T, r: T, u: T, v: T, rest: seq<T>)
    ensures [p, q, r, u, v] + rest == [p] + ([q] + ([r] + ([u] + ([v] + rest))))
  {
  }

  /** `x + y * z` followed by a terminator: multiplication binds tighter, so
      the queue is `x y z * +`. */
  lemma {:induction false} MulBindsTighter(x: int, y: int, z: int, e: Token, rest: seq<Token>, t: Tables, fs: FloatSem)
    requires Ends(e, 0)
    ensures InfixLoop(IntLit(x), [Plus, IntLit(y), Mul, IntLit(z), e] + rest, Start, t, fs)
         == Stop(Success, e, rest, Scan([], [IntLit(x), IntLit(y), IntLit(z), Mul, Plus], 0, true, []))
  {
    var a, b, c := IntLit(x), IntLit(y), IntLit(z);
    Regroup5(Plus, b, Mul, c, e, rest);
    PairStart(a, Plus, b, Mul, [c] + ([e] + rest), t, fs);
    OverTwo(a, b, c, Plus, Mul, e, rest, t, fs);
  }

  /** An operator that binds tighter than the one waiting goes over it, and
      its right operand goes to the output. */
  lemma {:induction false} OverThen(a: Token, b: Token, c: Token, op1: Token, op2: Token, e: Token, rest: seq<Token>, t: Tables, fs: FloatSem)
    requires c.IntLit? && op1.IsOperator() && op2.IsOperator() && Holds(op1, op2)
    ensures CountOpen([op1]) == 0 && CountOpen([op1, op2]) == 0
    ensures InfixLoop(op2, [c] + ([e] + rest), Scan([op1], [a, b], 0, true, []), t, fs)
         == InfixLoop(e, rest, Scan([op1, op2], [a, b, c], 0, true, []), t, fs)
  {
    OverFirst(a, b, c, op1, op2, [e] + rest, t, fs);
    OperandThird(a, b, c, op1, op2, e, rest, t, fs);
  }

  lemma OverFirst(a: Token, b: Token, c: Token, op1: Token, op2: Token, ts: seq<Token>, t: Tables, fs: FloatSem)
    requires op1.IsOperator() && op2.IsOperator() && Holds(op1, op2)
    ensures CountOpen([op1]) == 0 && CountOpen([op1, op2]) == 0
    ensures InfixLoop(op2, [c] + ts, Scan([op1], [a, b], 0, true, []), t, fs)
         == InfixLoop(c, ts, Scan([op1, op2], [a, b], 0, true, []), t, fs)
  {
    var sc := Scan([op1], [a, b], 0, true, []);
    NoOpen(sc.ops);
    OverCons(op2, c, ts, sc, t, fs);
    Snoc2(op1, op2);
  }

  lemma OperandThird(a: Token, b: Token, c: Token, op1: Token, op2: Token, e: Token, rest: seq<Token>, t: Tables, fs: FloatSem)
    requires c.IntLit? && op1.IsOperator() && op2.IsOperator()
    ensures CountOpen([op1, op2]) == 0
    ensures InfixLoop(c, [e] + rest, Scan([op1, op2], [a, b], 0, true, []), t, fs)
         == InfixLoop(e, rest, Scan([op1, op2], [a, b, c], 0, true, []), t, fs)
  {
    var sc1 := Scan([op1, op2], [a, b], 0, true, []);
    NoOpen(sc1.ops);
    OperandCons(c, e, rest, sc1, t, fs);
    Snoc3(a, b, c);
  }

  /** The terminator then drains both operators, top first. */
  lemma {:induction false} OverTwo(a: Token, b: Token, c: Token, op1: Token, op2: Token, e: Token, rest: seq<Token>, t: Tables, fs: FloatSem)
    requires c.IntLit? && op1.IsOperator() && op2.IsOperator() && Holds(op1, op2) && Ends(e, 0)
    ensures InfixLoop(op2, [c] + ([e] + rest), Scan([op1], [a, b], 0, true, []), t, fs)
         == Stop(Success, e, rest, Scan([], [a, b, c, op2, op1], 0, true, []))
  {
    OverThen(a, b, c, op1, op2, e, rest, t, fs);
    var sc2 := Scan([op1, op2], [a, b, c], 0, true, []);
    EndTwo(e, rest, sc2, t, fs);
    Append32(a, b, c, op2, op1);
  }

  /** `x + y < z`: the comparison binds tighter than the addition, so the
      queue is `x y z < +`, not `x y + z <` as in C. */
  lemma {:induction false} ComparisonBindsTighter(x: int, y: int, z: int, e: Token, rest: seq<Token>, t: Tables, fs: FloatSem)
    requires Ends(e, 0)
    ensures InfixLoop(IntLit(x), [Plus, IntLit(y), Less, IntLit(z), e] + rest, Start, t, fs)
         == Stop(Success, e, rest, Scan([], [IntLit(x), IntLit(y), IntLit(z), Less, Plus], 0, true, []))
  {
    var a, b, c := IntLit(x), IntLit(y), IntLit(z);
    Regroup5(Plus, b, Less, c, e, rest);
    PairStart(a, Plus, b, Less, [c] + ([e] + rest), t, fs);
    OverTwo(a, b, c, Plus, Less, e, rest, t, fs);
  }

  /** `x - y - z`: operators of equal precedence associate to the left, the
      queue is `x y - z -`. */
  lemma {:induction false} LeftAssociative(x: int, y: int, z: int, e: Token, rest: seq<Token>, t: Tables, fs: FloatSem)
    requires Ends(e, 0)
    ensures InfixLoop(IntLit(x), [Minus, IntLit(y), Minus, IntLit(z), e] + rest, Start, t, fs)
         == Stop(Success, e, rest, Scan([], [IntLit(x), IntLit(y), Minus, IntLit(z), Minus], 0, true, []))
  {
    Regroup5(Minus, IntLit(y), Minus, IntLit(z), e, rest);
    MinusChain(IntLit(x), IntLit(y), IntLit(z), e, rest, t, fs);
  }

  lemma MinusChain(a: Token, b: Token, c: Token, e: Token, rest: seq<Token>, t: Tables, fs: FloatSem)
    requires a.IntLit? && b.IntLit? && c.IntLit? && Ends(e, 0)
    ensures InfixLoop(a, [Minus] + ([b] + ([Minus] + ([c] + ([e] + rest)))), Start, t, fs)
         == Stop(Success, e, rest, Scan([], [a, b, Minus, c, Minus], 0, true, []))
  {
    PairStart(a, Minus, b, Minus, [c] + ([e] + rest), t, fs);
    UnderTwo(a, b, c, Minus, Minus, e, rest, t, fs);
  }

  /** An operator that does not bind tighter than the one waiting sends it
      to the output and takes its place; its right operand follows. */
  lemma {:induction false} UnderThen(a: Token, b: Token, c: Token, op1: Token, op2: Token, e: Token, rest: seq<Token>, t: Tables, fs: FloatSem)
    requires c.IntLit? && op1.IsOperator() && op2.IsOperator() && !Holds(op1, op2)
    ensures CountOpen([op1]) == 0 && CountOpen([op2]) == 0
    ensures InfixLoop(op2, [c] + ([e] + rest), Scan([op1], [a, b], 0, true, []), t, fs)
         == InfixLoop(e, rest, Scan([op2], [a, b, op1, c], 0, true, []), t, fs)
  {
    UnderFirst(a, b, c, op1, op2, [e] + rest, t, fs);
    OperandFourth(a, b, c, op1, op2, e, rest, t, fs);
  }

  lemma UnderFirst(a: Token, b: Token, c: Token, op1: Token, op2: Token, ts: seq<Token>, t: Tables, fs: FloatSem)
    requires op1.IsOperator() && op2.IsOperator() && !Holds(op1, op2)
    ensures CountOpen([op1]) == 0 && CountOpen([op2]) == 0
    ensures InfixLoop(op2, [c] + ts, Scan([op1], [a, b], 0, true, []), t, fs)
         == InfixLoop(c, ts, Scan([op2], [a, b, op1], 0, true, []), t, fs)
  {
    var sc := Scan([op1], [a, b], 0, true, []);
    NoOpen(sc.ops);
    UnderCons(op2, c, ts, sc, t, fs);
    Snoc3(a, b, op1);
  }

  lemma OperandFourth(a: Token, b: Token, c: Token, op1: Token, op2: Token, e: Token, rest: seq<Token>, t: Tables, fs: FloatSem)
    requires c.IntLit? && op2.IsOperator()
    ensures CountOpen([op2]) == 0
    ensures InfixLoop(c, [e] + rest, Scan([op2], [a, b, op1], 0, true, []), t, fs)
         == InfixLoop(e, rest, Scan([op2], [a, b, op1, c], 0, true, []), t, fs)
  {
    var sc1 := Scan([op2], [a, b, op1], 0, true, []);
    NoOpen(sc1.ops);
    OperandCons(c, e, rest, sc1, t, fs);
    Snoc4(a, b, op1, c);
  }

  /** The terminator then drains the one operator left. */
  lemma {:induction false} UnderTwo(a: Token, b: Token, c: Token, op1: Token, op2: Token, e: Token, rest: seq<Token>, t: Tables, fs: FloatSem)
    requires c.IntLit? && op1.IsOperator() && op2.IsOperator() && !Holds(op1, op2) && Ends(e, 0)
    ensures InfixLoop(op2, [c] + ([e] + rest), Scan([op1], [a, b], 0, true, []), t, fs)
         == Stop(Success, e, rest, Scan([], [a, b, op1, c, op2], 0, true, []))
  {
    UnderThen(a, b, c, op1, op2, e, rest, t, fs);
    var sc2 := Scan([op2], [a, b, op1, c], 0, true, []);
    EndOne(e, rest, sc2, t, fs);
    Snoc5(a, b, op1, c, op2);
  }

  // ---------------------------------------------------------------------------
  // Names, calls and brackets

  /** A name that is neither a variable nor a function is an error, reported
      before any code is emitted. */
  lemma UnknownNameRejected(n: string, ts: seq<Token>, t: Tables, resOnStack: bool, fs: FloatSem)
    requires n !in t.vars && n !in t.funcs
    ensures Expr(Id(n), ts, t, resOnStack, fs) == Compiled(UnknownName, Id(n), ts, [])
  {
    assert InfixLoop(Id(n), ts, Start, t, fs) == Stop(UnknownName, Id(n), ts, Start.(immediate := false));
  }

  /** A function name must be followed by `(`. */
  lemma CallNeedsBracketRejected(n: string, y: Token, ts: seq<Token>, t: Tables, resOnStack: bool, fs: FloatSem)
    requires n !in t.vars && n in t.funcs && !y.LeftBracket?
    ensures Expr(Id(n), [y] + ts, t, resOnStack, fs) == Compiled(CallNeedsBracket, y, ts, [])
  {
    assert InfixLoop(Id(n), [y] + ts, Start, t, fs) == Stop(CallNeedsBracket, y, ts, Start.(immediate := false)) by {
      NextCons(y, ts);
    }
  }

  /** `f()` followed by a terminator: the call is emitted first, then its
      return value is loaded into r0 and pushed. */
  lemma CallWithoutArguments(f: string, e: Token, rest: seq<Token>, t: Tables, fs: FloatSem)
    requires f !in t.vars && f in t.funcs && Ends(e, 0)
    ensures Expr(Id(f), [LeftBracket, RightBracket, e] + rest, t, true, fs)
         == Compiled(Success, e, rest, [Call(f), Load(0, Ret), PushR0])
  {
    var sc := Scan([], [Ret], 0, false, [Call(f)]);
    assert InfixLoop(Id(f), [LeftBracket, RightBracket, e] + rest, Start, t, fs) == Stop(Success, e, rest, sc) by {
      assert [LeftBracket, RightBracket, e] + rest == [LeftBracket] + ([RightBracket] + ([e] + rest));
      NextCons(LeftBracket, [RightBracket] + ([e] + rest));
      assert Args([RightBracket] + ([e] + rest), t, fs) == Compiled(Success, RightBracket, [e] + rest, []) by {
        NextCons(RightBracket, [e] + rest);
      }
      NextCons(e, rest);
      assert InfixLoop(e, rest, sc, t, fs) == Stop(Success, e, rest, sc) by {
        assert sc.out + Reverse([]) == sc.out;
      }
      assert Start.(immediate := false).(out := [] + [Ret], code := [] + [] + [Call(f)]) == sc;
    }
    assert Run([Ret], Machine([], 0, [Call(f)]), false, fs) == Done(Machine([Ret], 1, [Call(f), Load(0, Ret)])) by {
      RunOne(Ret, Machine([], 0, [Call(f)]), false, fs);
      assert [] + [Ret] == [Ret];
      assert [Call(f)] + [Load(0, Ret)] == [Call(f), Load(0, Ret)];
    }
  }

  /** An unclosed `(`: the value is still emitted, then the expression is
      rejected for its bracket balance. */
  lemma UnclosedBracket(x: int, e: Token, rest: seq<Token>, t: Tables, fs: FloatSem)
    requires Ends(e, 1)
    ensures Expr(LeftBracket, [IntLit(x), e] + rest, t, true, fs)
         == Compiled(BadBalance, e, rest, [PushConst(IntLit(x))])
  {
    UnclosedScan(x, e, rest, t, fs);
    UnclosedRun(x, fs);
    assert [] + [PushConst(IntLit(x))] == [PushConst(IntLit(x))];
  }

  lemma UnclosedScan(x: int, e: Token, rest: seq<Token>, t: Tables, fs: FloatSem)
    requires Ends(e, 1)
    ensures InfixLoop(LeftBracket, [IntLit(x), e] + rest, Start, t, fs)
         == Stop(Success, e, rest, Scan([], [IntLit(x), LeftBracket], 1, true, []))
  {
    Cons2(IntLit(x), e, rest);
    OpenCons(IntLit(x), [e] + rest, Start, t, fs);
    OpenOperand(x, e, rest, t, fs);
    UnclosedEnd(x, e, rest, t, fs);
  }

  /** `(` is pushed and the bracket counter raised. */
  lemma OpenCons(y: Token, ts: seq<Token>, sc: Scan, t: Tables, fs: FloatSem)
    requires Balanced(sc)
    ensures InfixLoop(LeftBracket, [y] + ts, sc, t, fs) == InfixLoop(y, ts, Opened(sc), t, fs)
  {
    NextCons(y, ts);
    AbsorbOpen(sc);
    ShiftStep(LeftBracket, [y] + ts, sc, t, fs);
  }

  lemma OneOpen()
    ensures CountOpen([LeftBracket]) == 1
  {
    assert multiset([LeftBracket])[LeftBracket] == 1;
  }

  lemma OpenOperand(x: int, e: Token, rest: seq<Token>, t: Tables, fs: FloatSem)
    ensures CountOpen([LeftBracket]) == 1
    ensures InfixLoop(IntLit(x), [e] + rest, Opened(Start), t, fs)
         == InfixLoop(e, rest, Scan([LeftBracket], [IntLit(x)], 1, true, []), t, fs)
  {
    OneOpen();
    var sc := Scan([LeftBracket], [], 1, true, []);
    assert Opened(Start) == sc by {
      assert [] + [LeftBracket] == [LeftBracket];
    }
    OperandCons(IntLit(x), e, rest, sc, t, fs);
    assert [] + [IntLit(x)] == [IntLit(x)];
  }

  /** The terminator drains the unmatched `(` to the output. */
  lemma UnclosedEnd(x: int, e: Token, rest: seq<Token>, t: Tables, fs: FloatSem)
    requires Ends(e, 1)
    ensures InfixLoop(e, rest, Scan([LeftBracket], [IntLit(x)], 1, true, []), t, fs)
         == Stop(Success, e, rest, Scan([], [IntLit(x), LeftBracket], 1, true, []))
  {
    assert Reverse([LeftBracket]) == [LeftBracket];
    Snoc2(IntLit(x), LeftBracket);
  }

  lemma UnclosedRun(x: int, fs: FloatSem)
    ensures Run([IntLit(x), LeftBracket], Machine([], 0, []), true, fs) == Done(Machine([IntLit(x)], 1, []))
  {
    RunAppend([IntLit(x)], [LeftBracket], Machine([], 0, []), true, fs);
    assert [IntLit(x)] + [LeftBracket] == [IntLit(x), LeftBracket];
    RunOne(IntLit(x), Machine([], 0, []), true, fs);
    assert [] + [IntLit(x)] == [IntLit(x)];
    RunOne(LeftBracket, Machine([IntLit(x)], 1, []), true, fs);
  }

  /** A `)` that closes nothing opened inside the expression ends it, so the
      caller (an argument list, a condition) sees it. */
  lemma CloseEndsExpression(x: int, rest: seq<Token>, t: Tables, fs: FloatSem)
    ensures Expr(IntLit(x), [RightBracket] + rest, t, true, fs)
         == Compiled(Success, RightBracket, rest, [PushConst(IntLit(x))])
  {
    StartOperand(IntLit(x), RightBracket, rest, t, fs);
    InfixEnds(RightBracket, rest, Scan([], [IntLit(x)], 0, true, []), t, fs);
    ConstantQueue(IntLit(x), [RightBracket] + rest, Leaf(IntLit(x)), RightBracket, rest, t, true, fs);
  }
}
