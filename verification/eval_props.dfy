/** What the evaluation pass computes for the postfix form of an expression
    tree: register code when the expression mentions a variable, and the
    folded constant when it does not. */
module EvaluationProps {
  import opened Types
  import opened Tokens
  import opened Errors
  import opened Evaluation

  /** A binary expression tree. */
  datatype Ast = Leaf(t: Token) | Node(op: Token, l: Ast, r: Ast)

  predicate WellFormed(a: Ast) {
    match a
    case Leaf(t) => t.IsOperand()
    case Node(op, l, r) => op.IsOperator() && WellFormed(l) && WellFormed(r)
  }

  /** The postfix queue of a tree: operands, then the operator. */
  function Postfix(a: Ast): seq<Token> {
    match a
    case Leaf(t) => [t]
    case Node(op, l, r) => Postfix(l) + Postfix(r) + [op]
  }

  function Max(x: nat, y: nat): nat { if x < y then y else x }

  /** Data stack entries (registers) a tree needs: the right operand is
      evaluated while the left one's value occupies a register. */
  function Need(a: Ast): nat {
    match a
    case Leaf(_) => 1
    case Node(_, l, r) => Max(Need(l), Need(r) + 1)
  }

  /** Reference register code for a tree whose value goes to register `k`:
      load the leaves in order, apply each operator to the two registers on top. */
  function Codegen(a: Ast, k: nat): seq<Instr> {
    match a
    case Leaf(t) => [Load(k, t)]
    case Node(op, l, r) => Codegen(l, k) + Codegen(r, k + 1) + [Apply(k, op, k + 1)]
  }

  /** The stack entry that stands for a tree's value in register mode. */
  function Top(a: Ast): Token {
    match a
    case Leaf(t) => t
    case Node(_, _, _) => Acc
  }

  /** Register mode: evaluating the postfix queue emits `Codegen` and leaves one
      entry, exactly when the registers suffice; otherwise it is too complex. */
  lemma {:induction false} RegisterMode(a: Ast, m: Machine, fs: FloatSem)
    requires WellFormed(a) && Valid(m)
    decreases a, 1
    ensures Run(Postfix(a), m, false, fs)
         == if |m.stack| + Need(a) <= ArchRegNum
            then Done(Machine(m.stack + [Top(a)], |m.stack| + 1, m.code + Codegen(a, |m.stack|)))
            else Fail(TooComplex)
  {
    match a
    case Leaf(t) =>
      RunOne(t, m, false, fs);
    case Node(op, l, r) =>
      var n := |m.stack|;
      assert Postfix(a) == Postfix(l) + (Postfix(r) + [op]);
      RunAppend(Postfix(l), Postfix(r) + [op], m, false, fs);
      RegisterMode(l, m, fs);
      if n + Need(l) <= ArchRegNum {
        var m1 := Machine(m.stack + [Top(l)], n + 1, m.code + Codegen(l, n));
        RegisterModeLeftDone(op, l, r, m, m1, fs);
      }
  }

  /** The node case once the left operand fits: `m1` is the machine with the
      left operand's value in register `n`. */
  lemma {:induction false} RegisterModeLeftDone(op: Token, l: Ast, r: Ast, m: Machine, m1: Machine, fs: FloatSem)
    requires op.IsOperator() && WellFormed(r) && Valid(m) && |m.stack| + Need(l) <= ArchRegNum
    requires m1 == Machine(m.stack + [Top(l)], |m.stack| + 1, m.code + Codegen(l, |m.stack|)) && Valid(m1)
    decreases r, 3
    ensures var n, a := |m.stack|, Node(op, l, r);
      Run(Postfix(r) + [op], m1, false, fs)
      == if n + Need(a) <= ArchRegNum
         then Done(Machine(m.stack + [Acc], n + 1, m.code + Codegen(a, n)))
         else Fail(TooComplex)
  {
    var n := |m.stack|;
    RegisterModeRight(op, r, m1, fs);
    CodegenNode(op, l, r, m.code, n);
    DropLast(m.stack, Top(l));
    NeedNode(op, l, r, n);
  }

  /** Dropping the entry just pushed gives back the stack below it. */
  lemma DropLast<T>(s: seq<T>, x: T)
    ensures (s + [x])[..|s|] == s
  {
  }

  /** Once the left operand fits, the node fits exactly when its right operand
      fits one register higher. */
  lemma NeedNode(op: Token, l: Ast, r: Ast, n: nat)
    requires n + Need(l) <= ArchRegNum
    ensures n + Need(Node(op, l, r)) <= ArchRegNum <==> n + 1 + Need(r) <= ArchRegNum
  {
  }

  lemma CodegenNode(op: Token, l: Ast, r: Ast, code: seq<Instr>, n: nat)
    ensures code + Codegen(l, n) + Codegen(r, n + 1) + [Apply(n, op, n + 1)] == code + Codegen(Node(op, l, r), n)
  {
  }

  /** The right operand and the operator, with the left operand's value on top. */
  lemma {:induction false} RegisterModeRight(op: Token, r: Ast, m: Machine, fs: FloatSem)
    requires op.IsOperator() && WellFormed(r) && Valid(m) && |m.stack| >= 1
    decreases r, 2
    ensures var n := |m.stack|;
      Run(Postfix(r) + [op], m, false, fs)
      == if n + Need(r) <= ArchRegNum
         then Done(Machine(m.stack[..n - 1] + [Acc], n, m.code + Codegen(r, n) + [Apply(n - 1, op, n)]))
         else Fail(TooComplex)
  {
    var n := |m.stack|;
    RunAppend(Postfix(r), [op], m, false, fs);
    RegisterMode(r, m, fs);
    if n + Need(r) <= ArchRegNum {
      var m2 := Machine(m.stack + [Top(r)], n + 1, m.code + Codegen(r, n));
      ApplyTop(op, r, m, m2, fs);
    }
  }

  /** The operator combines the two registers on top into the lower one. */
  lemma ApplyTop(op: Token, r: Ast, m: Machine, m2: Machine, fs: FloatSem)
    requires op.IsOperator() && Valid(m) && |m.stack| >= 1
    requires m2 == Machine(m.stack + [Top(r)], |m.stack| + 1, m.code + Codegen(r, |m.stack|)) && Valid(m2)
    ensures var n := |m.stack|;
      Run([op], m2, false, fs) == Done(Machine(m.stack[..n - 1] + [Acc], n, m.code + Codegen(r, n) + [Apply(n - 1, op, n)]))
  {
    RunOne(op, m2, false, fs);
    StepApply(op, m2, fs);
    DropLastTwo(m.stack, Top(r));
  }

  /** The entries below the top two are not disturbed by a push. */
  lemma DropLastTwo<T>(s: seq<T>, x: T)
    requires |s| >= 1
    ensures (s + [x])[..|s| - 1] == s[..|s| - 1]
  {
  }

  /** An operator in register mode combines the two top registers. */
  lemma StepApply(op: Token, m: Machine, fs: FloatSem)
    requires op.IsOperator() && Valid(m) && |m.stack| >= 2
    ensures Step(m, op, false, fs)
         == Done(Machine(m.stack[..|m.stack| - 2] + [Acc], m.count - 1, m.code + [Apply(m.count - 2, op, m.count - 1)]))
  {
  }

  lemma {:induction false} RunOne(x: Token, m: Machine, immediate: bool, fs: FloatSem)
    requires Valid(m)
    ensures Run([x], m, immediate, fs) == Step(m, x, immediate, fs)
  {
    assert [x][1..] == [];
  }

  /** What register mode has printed when it stops: the reference code when
      the tree fits, and otherwise a proper prefix of it, ending before the load
      that found no free register. */
  lemma {:induction false} EmittedRegister(a: Ast, m: Machine, fs: FloatSem)
    requires WellFormed(a) && Valid(m)
    decreases a, 1
    ensures var e, full := Emitted(Postfix(a), m, false, fs), m.code + Codegen(a, |m.stack|);
      if |m.stack| + Need(a) <= ArchRegNum then e == full else m.code <= e < full
  {
    match a
    case Leaf(t) =>
      assert [t][1..] == [];
    case Node(op, l, r) =>
      EmittedNode(op, l, r, m, fs);
  }

  lemma {:induction false} EmittedNode(op: Token, l: Ast, r: Ast, m: Machine, fs: FloatSem)
    requires WellFormed(Node(op, l, r)) && Valid(m)
    decreases Node(op, l, r), 0
    ensures var e, full := Emitted(Postfix(Node(op, l, r)), m, false, fs), m.code + Codegen(Node(op, l, r), |m.stack|);
      if |m.stack| + Need(Node(op, l, r)) <= ArchRegNum then e == full else m.code <= e < full
  {
    var n := |m.stack|;
    assert Postfix(Node(op, l, r)) == Postfix(l) + (Postfix(r) + [op]);
    CodegenNode(op, l, r, m.code, n);
    if n + Need(l) <= ArchRegNum {
      NodeLeftFits(op, l, r, m, fs);
    } else {
      LeftTooComplex(l, Postfix(r) + [op], Codegen(r, n + 1) + [Apply(n, op, n + 1)], m, fs);
    }
  }

  /** The node case once the left operand fits. */
  lemma NodeLeftFits(op: Token, l: Ast, r: Ast, m: Machine, fs: FloatSem)
    requires WellFormed(Node(op, l, r)) && Valid(m) && |m.stack| + Need(l) <= ArchRegNum
    decreases r, 3
    ensures var n := |m.stack|;
      var e, full := Emitted(Postfix(l) + (Postfix(r) + [op]), m, false, fs), m.code + Codegen(l, n) + Codegen(r, n + 1) + [Apply(n, op, n + 1)];
      if n + Need(Node(op, l, r)) <= ArchRegNum then e == full else m.code <= e < full
  {
    var n := |m.stack|;
    var m1 := Machine(m.stack + [Top(l)], n + 1, m.code + Codegen(l, n));
    assert |m1.stack| == n + 1;
    LeftFits(l, Postfix(r) + [op], m, fs);
    EmittedRight(op, r, m1, fs);
    NeedNode(op, l, r, n);
    if n + 1 + Need(r) > ArchRegNum {
      PrefixOfAppend(m.code, Codegen(l, n), Emitted(Postfix(r) + [op], m1, false, fs));
    }
  }

  /** A prefix of a sequence that extends `p` extends `p` too. */
  lemma PrefixOfAppend<T>(p: seq<T>, q: seq<T>, e: seq<T>)
    requires p + q <= e
    ensures p <= e
  {
    assert e[..|p|] == (p + q)[..|p|];
  }

  /** A left operand that fits leaves its value on top and its code printed. */
  lemma LeftFits(l: Ast, ys: seq<Token>, m: Machine, fs: FloatSem)
    requires WellFormed(l) && Valid(m) && |m.stack| + Need(l) <= ArchRegNum
    ensures var m1 := Machine(m.stack + [Top(l)], |m.stack| + 1, m.code + Codegen(l, |m.stack|));
      Valid(m1) && Emitted(Postfix(l) + ys, m, false, fs) == Emitted(ys, m1, false, fs)
  {
    EmittedAppend(Postfix(l), ys, m, false, fs);
    RegisterMode(l, m, fs);
  }

  /** A left operand that does not fit stops the evaluation inside its own code. */
  lemma {:induction false} LeftTooComplex(l: Ast, ys: seq<Token>, zs: seq<Instr>, m: Machine, fs: FloatSem)
    requires WellFormed(l) && Valid(m) && |m.stack| + Need(l) > ArchRegNum
    decreases l, 2
    ensures var e := Emitted(Postfix(l) + ys, m, false, fs);
      m.code <= e < m.code + Codegen(l, |m.stack|) + zs
  {
    EmittedAppend(Postfix(l), ys, m, false, fs);
    RegisterMode(l, m, fs);
    EmittedRegister(l, m, fs);
  }

  /** The right operand and the operator, once the left operand's value is in
      the top register of `m1`. */
  lemma {:induction false} EmittedRight(op: Token, r: Ast, m1: Machine, fs: FloatSem)
    requires op.IsOperator() && WellFormed(r) && Valid(m1) && |m1.stack| >= 1
    decreases r, 2
    ensures var e, full := Emitted(Postfix(r) + [op], m1, false, fs), m1.code + Codegen(r, |m1.stack|) + [Apply(|m1.stack| - 1, op, |m1.stack|)];
      if |m1.stack| + Need(r) <= ArchRegNum then e == full else m1.code <= e < full
  {
    var n := |m1.stack|;
    EmittedAppend(Postfix(r), [op], m1, false, fs);
    RegisterMode(r, m1, fs);
    EmittedRegister(r, m1, fs);
    if n + Need(r) <= ArchRegNum {
      var m2 := Machine(m1.stack + [Top(r)], n + 1, m1.code + Codegen(r, n));
      ApplyTop(op, r, m1, m2, fs);
    }
  }

  /** A tree of integer literals. */
  predicate IntTree(a: Ast) {
    match a
    case Leaf(t) => t.IntLit?
    case Node(op, l, r) => op.IsOperator() && IntTree(l) && IntTree(r)
  }

  /** Reference value of an integer tree, absent when it divides by zero. */
  function Value(a: Ast): Option<int>
    requires IntTree(a)
  {
    match a
    case Leaf(t) => Some(t.value)
    case Node(op, l, r) =>
      match (Value(l), Value(r))
      case (Some(x), Some(y)) => if op.Div? && y == 0 then None else Some(IntOp(op, x, y))
      case _ => None
  }

  /** Immediate mode on an integer tree that fits the registers: the queue folds
      to the tree's value without emitting code, or fails on a division by zero. */
  lemma {:induction false} ImmediateMode(a: Ast, m: Machine, fs: FloatSem)
    requires IntTree(a) && Valid(m) && |m.stack| + Need(a) <= ArchRegNum
    decreases a, 1
    ensures Run(Postfix(a), m, true, fs)
         == match Value(a)
            case None => Fail(DivideByZero)
            case Some(v) => Done(Machine(m.stack + [IntLit(v)], |m.stack| + 1, m.code))
  {
    match a
    case Leaf(t) =>
      RunOne(t, m, true, fs);
    case Node(op, l, r) =>
      var n := |m.stack|;
      assert Postfix(a) == Postfix(l) + (Postfix(r) + [op]);
      RunAppend(Postfix(l), Postfix(r) + [op], m, true, fs);
      ImmediateMode(l, m, fs);
      if Value(l).Some? {
        var m1 := Machine(m.stack + [IntLit(Value(l).value)], n + 1, m.code);
        ImmediateRight(op, l, r, m, m1, fs);
      }
  }

  /** The node case once the left operand has folded to a constant, which
      `m1` holds on top of `m`'s stack. */
  lemma {:induction false} ImmediateRight(op: Token, l: Ast, r: Ast, m: Machine, m1: Machine, fs: FloatSem)
    requires IntTree(Node(op, l, r)) && Valid(m) && |m.stack| + Need(Node(op, l, r)) <= ArchRegNum
    requires Value(l).Some? && m1 == Machine(m.stack + [IntLit(Value(l).value)], |m.stack| + 1, m.code) && Valid(m1)
    decreases Node(op, l, r), 0
    ensures Run(Postfix(r) + [op], m1, true, fs)
         == match Value(Node(op, l, r))
            case None => Fail(DivideByZero)
            case Some(v) => Done(Machine(m.stack + [IntLit(v)], |m.stack| + 1, m.code))
  {
    var n := |m.stack|;
    RunAppend(Postfix(r), [op], m1, true, fs);
    ImmediateMode(r, m1, fs);
    if Value(r).Some? {
      var m2 := Machine(m1.stack + [IntLit(Value(r).value)], n + 2, m.code);
      FoldTop(op, l, r, m, m2, fs);
    }
  }

  /** Immediate mode prints nothing, whether the tree folds or divides by zero. */
  lemma {:induction false} EmittedImmediate(a: Ast, m: Machine, fs: FloatSem)
    requires IntTree(a) && Valid(m) && |m.stack| + Need(a) <= ArchRegNum
    decreases a, 1
    ensures Emitted(Postfix(a), m, true, fs) == m.code
  {
    ImmediateMode(a, m, fs);
    match a
    case Leaf(t) =>
    case Node(op, l, r) =>
      var n := |m.stack|;
      assert Postfix(a) == Postfix(l) + (Postfix(r) + [op]);
      EmittedAppend(Postfix(l), Postfix(r) + [op], m, true, fs);
      ImmediateMode(l, m, fs);
      EmittedImmediate(l, m, fs);
      if Value(l).Some? {
        var m1 := Machine(m.stack + [IntLit(Value(l).value)], n + 1, m.code);
        EmittedImmediateRight(op, l, r, m, m1, fs);
      }
  }

  lemma {:induction false} EmittedImmediateRight(op: Token, l: Ast, r: Ast, m: Machine, m1: Machine, fs: FloatSem)
    requires IntTree(Node(op, l, r)) && Valid(m) && |m.stack| + Need(Node(op, l, r)) <= ArchRegNum
    requires Value(l).Some? && m1 == Machine(m.stack + [IntLit(Value(l).value)], |m.stack| + 1, m.code) && Valid(m1)
    decreases Node(op, l, r), 0
    ensures Emitted(Postfix(r) + [op], m1, true, fs) == m.code
  {
    var n := |m.stack|;
    EmittedAppend(Postfix(r), [op], m1, true, fs);
    ImmediateMode(r, m1, fs);
    EmittedImmediate(r, m1, fs);
    if Value(r).Some? {
      var m2 := Machine(m1.stack + [IntLit(Value(r).value)], n + 2, m.code);
      FoldTop(op, l, r, m, m2, fs);
      assert [op][1..] == [];
    }
  }

  /** The operator folds the two constants on top into the node's value. */
  lemma FoldTop(op: Token, l: Ast, r: Ast, m: Machine, m2: Machine, fs: FloatSem)
    requires IntTree(Node(op, l, r)) && Valid(m) && Value(l).Some? && Value(r).Some?
    requires m2 == Machine(m.stack + [IntLit(Value(l).value)] + [IntLit(Value(r).value)], |m.stack| + 2, m.code) && Valid(m2)
    ensures Run([op], m2, true, fs)
         == match Value(Node(op, l, r))
            case None => Fail(DivideByZero)
            case Some(v) => Done(Machine(m.stack + [IntLit(v)], |m.stack| + 1, m.code))
  {
    var x, y := Value(l).value, Value(r).value;
    LastTwo(m.stack, IntLit(x), IntLit(y));
    RunOne(op, m2, true, fs);
    StepFold(op, m2, fs);
  }

  /** Two entries pushed on a stack: where they are, and what is below them. */
  lemma LastTwo<T>(s: seq<T>, x: T, y: T)
    ensures var t := s + [x] + [y];
      |t| == |s| + 2 && t[|s|] == x && t[|s| + 1] == y && t[..|s|] == s
  {
  }

  /** An operator in immediate mode on two integer constants folds them. */
  lemma StepFold(op: Token, m: Machine, fs: FloatSem)
    requires op.IsOperator() && Valid(m) && |m.stack| >= 2
    requires m.stack[|m.stack| - 2].IntLit? && m.stack[|m.stack| - 1].IntLit?
    ensures var x, y := m.stack[|m.stack| - 2].value, m.stack[|m.stack| - 1].value;
      Step(m, op, true, fs)
      == if op.Div? && y == 0 then Fail(DivideByZero)
         else Done(Machine(m.stack[..|m.stack| - 2] + [IntLit(IntOp(op, x, y))], m.count - 1, m.code))
  {
  }

  /** The integer comparisons fold to 0 or 1, and are each other's mirror
      images and negations. */
  lemma ComparisonDuals(a: int, b: int)
    ensures forall op: Token | op.IsComparison() :: IntOp(op, a, b) == 0 || IntOp(op, a, b) == 1
    ensures IntOp(Less, a, b) == IntOp(More, b, a) && IntOp(LessEqu, a, b) == IntOp(MoreEqu, b, a)
    ensures IntOp(LessEqu, a, b) == 1 - IntOp(More, a, b) && IntOp(MoreEqu, a, b) == 1 - IntOp(Less, a, b)
    ensures IntOp(NonEqu, a, b) == 1 - IntOp(Equ, a, b) && IntOp(Equ, a, b) == IntOp(Equ, b, a)
  {
  }

  /** Comparing an integer with a double that holds an integer value: when the
      double comparison is exact on converted integers, the mixed fold gives
      the same 0 or 1 as comparing the two integers. */
  lemma PromotedComparison(op: Token, a: int, b: int, fs: FloatSem)
    requires op.IsComparison()
    requires fs.lt(Promoted(a), Promoted(b)) <==> a < b
    requires fs.lt(Promoted(b), Promoted(a)) <==> b < a
    requires fs.eq(Promoted(a), Promoted(b)) <==> a == b
    ensures FloatCompare(op, Promoted(a), Promoted(b), fs) <==> IntOp(op, a, b) == 1
    ensures Fold(op, IntLit(a), FloatLit(Promoted(b)), fs) == Fold(op, IntLit(a), IntLit(b), fs)
    ensures Fold(op, FloatLit(Promoted(a)), IntLit(b), fs) == Fold(op, IntLit(a), IntLit(b), fs)
  {
  }

  /** The register bound is the only limit in register mode: a tree needing
      more than `ArchRegNum` registers is rejected whatever its operands. */
  lemma RightCombTooComplex(n: nat, fs: FloatSem)
    ensures Need(Comb(n)) == n + 1
    ensures n >= ArchRegNum ==> Run(Postfix(Comb(n)), Machine([], 0, []), false, fs) == Fail(TooComplex)
  {
    CombShape(n);
    if n >= ArchRegNum {
      TooManyRegisters(Comb(n), fs);
    }
  }

  lemma {:induction false} CombShape(n: nat)
    ensures WellFormed(Comb(n)) && Need(Comb(n)) == n + 1
  {
    if n > 0 {
      CombShape(n - 1);
    }
  }

  lemma TooManyRegisters(a: Ast, fs: FloatSem)
    requires WellFormed(a) && Need(a) > ArchRegNum
    ensures Run(Postfix(a), Machine([], 0, []), false, fs) == Fail(TooComplex)
  {
    RegisterMode(a, Machine([], 0, []), fs);
  }

  /** `1 + (1 + (… + 1))` with `n` additions. */
  function Comb(n: nat): Ast {
    if n == 0 then Leaf(IntLit(1)) else Node(Plus, Leaf(IntLit(1)), Comb(n - 1))
  }
}
