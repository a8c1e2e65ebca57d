/** The second pass of `expr` (Parser_Expr.cpp): evaluation of the postfix
    queue on a data stack, with constant folding and register accounting, and
    the code it emits. */
module Evaluation {
  import opened Types
  import opened Tokens
  import opened Errors

  /** One line of emitted code. */
  datatype Instr =
    | Load(reg: nat, operand: Token)          // rK = operand
    | Apply(dst: nat, op: Token, src: nat)     // rK = rK op rM
    | Call(name: string)                      // call f
    | PushConst(operand: Token)               // push(const)
    | PushR0                                  // push(r0)
    | SetR0(operand: Token)                   // r0 = const

  /** The floating point comparisons the folder relies on, left abstract:
      `lt` is `<` and `eq` is `==` on doubles. */
  datatype FloatSem = FloatSem(lt: (FloatVal, FloatVal) -> bool, eq: (FloatVal, FloatVal) -> bool)

  const TooComplex := SyntaxError("Expression is too complex")
  const TooFewOperands := SyntaxError("Expected 2 arguments for operation")
  const DivideByZero := SyntaxError("Cannot divide by zero")

  // ---------------------------------------------------------------------------
  // Integer arithmetic

  function Abs(x: int): nat { if x < 0 then -x else x }

  /** C++ integer division: the quotient is truncated toward zero, so the
      remainder is smaller than the divisor and has the sign of the dividend. */
  function TruncDiv(a: int, b: int): (q: int)
    requires b != 0
    ensures Abs(a - q * b) < Abs(b)
    ensures a - q * b == 0 || (a - q * b < 0 <==> a < 0)
    ensures Abs(q) == Abs(a) / Abs(b)
  {
    var m := Abs(a) / Abs(b);
    var q := if (a < 0) == (b < 0) then m else -m;
    TruncDivRemainder(a, b, m, q);
    q
  }

  lemma TruncDivRemainder(a: int, b: int, m: int, q: int)
    requires b != 0 && m == Abs(a) / Abs(b) && q == if (a < 0) == (b < 0) then m else -m
    ensures Abs(q) == m
    ensures Abs(a - q * b) < Abs(b)
    ensures a - q * b == 0 || (a - q * b < 0 <==> a < 0)
  {
    DivMod(Abs(a), Abs(b));
    var p := m * Abs(b);
    assert q * b == if a >= 0 then p else -p;
  }

  lemma DivMod(x: nat, y: nat)
    requires y > 0
    ensures x == (x / y) * y + x % y && 0 <= x % y < y && x / y >= 0
  {
  }

  /** The value an operator produces from two integers (a comparison gives 0 or 1). */
  function IntOp(op: Token, a: int, b: int): int
    requires op.IsOperator() && (op.Div? ==> b != 0)
  {
    match op
    case Plus => a + b
    case Minus => a - b
    case Mul => a * b
    case Div => TruncDiv(a, b)
    case Less => if a < b then 1 else 0
    case LessEqu => if a <= b then 1 else 0
    case More => if a > b then 1 else 0
    case MoreEqu => if a >= b then 1 else 0
    case Equ => if a == b then 1 else 0
    case NonEqu => if a != b then 1 else 0
  }

  // ---------------------------------------------------------------------------
  // Constant folding

  predicate IsConstant(t: Token) { t.IntLit? || t.FloatLit? }

  /** An operand as a double: integers are converted. */
  function AsFloat(t: Token): FloatVal
    requires IsConstant(t)
  {
    if t.IntLit? then Promoted(t.value) else t.fvalue
  }

  /** The divisor test: exact for an integer divisor, `== 0.0` for a double. */
  predicate IsZeroDivisor(b: Token, fs: FloatSem)
    requires IsConstant(b)
  {
    if b.IntLit? then b.value == 0 else fs.eq(b.fvalue, Promoted(0))
  }

  function FloatCompare(op: Token, x: FloatVal, y: FloatVal, fs: FloatSem): bool
    requires op.IsComparison()
  {
    match op
    case Less => fs.lt(x, y)
    case LessEqu => fs.lt(x, y) || fs.eq(x, y)
    case More => fs.lt(y, x)
    case MoreEqu => fs.lt(y, x) || fs.eq(x, y)
    case Equ => fs.eq(x, y)
    case NonEqu => !fs.eq(x, y)
  }

  /** Compile-time evaluation of `a op b` for two constants. */
  function Fold(op: Token, a: Token, b: Token, fs: FloatSem): (r: Result<Token>)
    requires op.IsOperator() && IsConstant(a) && IsConstant(b)
    ensures r.Fail? <==> op.Div? && IsZeroDivisor(b, fs)
    ensures r.Fail? ==> r.error == DivideByZero
    ensures r.Done? && op.IsComparison() ==> r.value == IntLit(0) || r.value == IntLit(1)
    ensures r.Done? && !op.IsComparison() ==> (r.value.IntLit? <==> a.IntLit? && b.IntLit?)
    ensures r.Done? && a.IntLit? && b.IntLit? ==> r.value == IntLit(IntOp(op, a.value, b.value))
  {
    if a.IntLit? && b.IntLit? then
      if op.Div? && b.value == 0 then Fail(DivideByZero)
      else Done(IntLit(IntOp(op, a.value, b.value)))
    else
      var x, y := AsFloat(a), AsFloat(b);
      if op.Plus? then Done(FloatLit(Sum(x, y)))
      else if op.Minus? then Done(FloatLit(Difference(x, y)))
      else if op.Mul? then Done(FloatLit(Product(x, y)))
      else if op.Div? then
        if IsZeroDivisor(b, fs) then Fail(DivideByZero) else Done(FloatLit(Quotient(x, y)))
      else Done(IntLit(if FloatCompare(op, x, y, fs) then 1 else 0))
  }

  // ---------------------------------------------------------------------------
  // The evaluation loop

  /** The data stack, the register counter `gExprStackSize`, and the code so far. */
  datatype Machine = Machine(stack: seq<Token>, count: nat, code: seq<Instr>)

  /** The counter tracks the stack exactly and never passes the register count. */
  ghost predicate Valid(m: Machine) {
    m.count == |m.stack| <= ArchRegNum
  }

  /** One item of the postfix queue. */
  function Step(m: Machine, item: Token, immediate: bool, fs: FloatSem): (r: Result<Machine>)
    requires Valid(m)
    ensures r.Done? ==> Valid(r.value)
    ensures r.Done? ==> m.code <= r.value.code
    ensures item.IsOperand() ==> (r.Fail? <==> m.count == ArchRegNum) && (r.Fail? ==> r.error == TooComplex)
    ensures item.IsOperand() && r.Done? ==> r.value.stack == m.stack + [item]
    ensures item.IsOperator() && |m.stack| < 2 ==> r == Fail(TooFewOperands)
    ensures item.IsOperator() && r.Done? ==>
      |r.value.stack| == |m.stack| - 1 && r.value.stack[..|m.stack| - 2] == m.stack[..|m.stack| - 2]
    ensures item.IsOperator() && r.Fail? ==> r.error == TooFewOperands || r.error == DivideByZero
    ensures !item.IsOperand() && !item.IsOperator() ==> r == Done(m)
  {
    if item.IsOperand() then
      if m.count < ArchRegNum then
        var code := if immediate then m.code else m.code + [Load(m.count, item)];
        Done(Machine(m.stack + [item], m.count + 1, code))
      else Fail(TooComplex)
    else if item.IsOperator() then
      if |m.stack| < 2 then Fail(TooFewOperands)
      else
        var n := |m.stack|;
        var sec, fir := m.stack[n - 1], m.stack[n - 2];
        var below := m.stack[..n - 2];
        if IsConstant(fir) && IsConstant(sec) && immediate then
          match Fold(item, fir, sec, fs)
          case Fail(e) => Fail(e)
          case Done(v) => Done(Machine(below + [v], m.count - 1, m.code))
        else if m.count - 2 < ArchRegNum then
          if m.count - 1 < ArchRegNum then
            Done(Machine(below + [Acc], m.count - 1, m.code + [Apply(m.count - 2, item, m.count - 1)]))
          else Fail(TooComplex)
        else Fail(TooComplex)
    else Done(m)   // a `(` left over from an unbalanced expression
  }

  /** The evaluation loop over the whole postfix queue; the first error stops it. */
  function Run(items: seq<Token>, m: Machine, immediate: bool, fs: FloatSem): (r: Result<Machine>)
    requires Valid(m)
    ensures r.Done? ==> Valid(r.value) && m.code <= r.value.code
    ensures r.Fail? ==> r.error in {TooComplex, TooFewOperands, DivideByZero}
    decreases |items|
  {
    if |items| == 0 then Done(m)
    else
      match Step(m, items[0], immediate, fs)
      case Fail(e) => Fail(e)
      case Done(m') => Run(items[1..], m', immediate, fs)
  }

  lemma {:induction false} RunAppend(xs: seq<Token>, ys: seq<Token>, m: Machine, immediate: bool, fs: FloatSem)
    requires Valid(m)
    ensures Run(xs + ys, m, immediate, fs)
         == match Run(xs, m, immediate, fs)
            case Fail(e) => Fail(e)
            case Done(m') => Run(ys, m', immediate, fs)
    decreases |xs|
  {
    if |xs| == 0 {
      assert xs + ys == ys;
    } else {
      assert (xs + ys)[0] == xs[0] && (xs + ys)[1..] == xs[1..] + ys;
      match Step(m, xs[0], immediate, fs)
      case Fail(e) =>
      case Done(m') => RunAppend(xs[1..], ys, m', immediate, fs);
    }
  }

  /** The code printed by the time evaluation stops: all of it when the queue
      is evaluated, and what came before the failing item otherwise (each load
      and operation is printed as soon as it is met). */
  function Emitted(items: seq<Token>, m: Machine, immediate: bool, fs: FloatSem): (code: seq<Instr>)
    requires Valid(m)
    ensures m.code <= code
    ensures Run(items, m, immediate, fs).Done? ==> code == Run(items, m, immediate, fs).value.code
    decreases |items|
  {
    if |items| == 0 then m.code
    else
      match Step(m, items[0], immediate, fs)
      case Fail(_) => m.code
      case Done(m') => Emitted(items[1..], m', immediate, fs)
  }

  lemma {:induction false} EmittedAppend(xs: seq<Token>, ys: seq<Token>, m: Machine, immediate: bool, fs: FloatSem)
    requires Valid(m)
    ensures Emitted(xs + ys, m, immediate, fs)
         == match Run(xs, m, immediate, fs)
            case Fail(_) => Emitted(xs, m, immediate, fs)
            case Done(m') => Emitted(ys, m', immediate, fs)
    decreases |xs|
  {
    if |xs| == 0 {
      assert xs + ys == ys;
    } else {
      assert (xs + ys)[0] == xs[0] && (xs + ys)[1..] == xs[1..] + ys;
      match Step(m, xs[0], immediate, fs)
      case Fail(e) =>
      case Done(m') => EmittedAppend(xs[1..], ys, m', immediate, fs);
    }
  }

  /** What `expr` emits once the queue is evaluated: a constant expression is
      pushed or loaded into r0 directly; otherwise the result is already in r0
      and is pushed when the caller wants it on the stack. */
  function Finish(m: Machine, immediate: bool, resOnStack: bool): (r: Result<seq<Instr>>)
    ensures immediate && |m.stack| == 0 <==> r.Fail?
    ensures r.Done? ==> m.code <= r.value && |r.value| <= |m.code| + 1
    ensures r.Done? && immediate ==> r.value == m.code + [if resOnStack then PushConst(m.stack[0]) else SetR0(m.stack[0])]
    ensures r.Done? && !immediate ==> r.value == m.code + (if resOnStack then [PushR0] else [])
  {
    if immediate then
      // The source reads `operationStack[0]` without checking that the stack is non-empty.
      if |m.stack| == 0 then Fail(SyntaxError("Empty constant expression"))
      else if resOnStack then Done(m.code + [PushConst(m.stack[0])])
      else Done(m.code + [SetR0(m.stack[0])])
    else if resOnStack then Done(m.code + [PushR0])
    else Done(m.code)
  }
}
