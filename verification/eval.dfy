/** The tree-walking evaluator of src/eval.rs: integer and string arithmetic
    on literal trees, `Null` for every other expression form, and one value
    per expression statement. Where the source panics (mismatched operand
    kinds, an operator it does not know, an `i64` overflow, a zero divisor)
    the model returns a `RuntimeError`. */
module Evaluation {
  import opened Results
  import opened Tokens
  import opened Ast

  /** A floating-point value, kept symbolic: the literal it was read from, or
      the operation that produced it. Its `f64` value is not modelled. */
  datatype FloatValue =
    | FromLiteral(lit: FloatLit)
    | Arith(left: FloatValue, op: Token, right: FloatValue)

  datatype Value =
    | Int(i: I64)
    | Float(f: FloatValue)
    | Bool(b: bool)
    | String(s: string)
    | Null

  /** Why evaluation stopped. Each constructor stands for one `panic!` of the
      source, or for the panic Rust raises on an arithmetic overflow or a
      zero divisor. */
  datatype RuntimeError =
    | InvalidTypes(op: Token)
    | InvalidOperator(op: Token)
    | Overflow(op: Token)
    | DivisionByZero

  // ---------------------------------------------------------------------------
  // i64 arithmetic

  function Abs(x: int): nat {
    if x < 0 then -x else x
  }

  /** Rust's `/` on integers: the quotient rounded toward zero. */
  function TruncDiv(a: int, b: int): int
    requires b != 0
  {
    if (a < 0) == (b < 0) then Abs(a) / Abs(b) else -(Abs(a) / Abs(b))
  }

  /** An exact result as an `i64`, or the overflow panic of a debug build. */
  function Checked(op: Token, x: int): (r: Result<Value, RuntimeError>)
    ensures r.Ok? <==> InI64(x)
    ensures r.Ok? ==> r.value == Int(x)
    ensures r.Err? ==> r.error == Overflow(op)
  {
    if InI64(x) then Ok(Int(x)) else Err(Overflow(op))
  }

  /** Multiplying by a larger factor gives at least as much. */
  lemma MulAtLeast(x: int, y: int, c: int)
    requires x >= 0 && y >= c
    ensures x * y >= x * c
  {
    assert x * y - x * c == x * (y - c);
  }

  /** The quotient is no larger in absolute value than the dividend, and at
      most half of it once the divisor is at least two. */
  lemma TruncDivBound(a: int, b: int)
    requires b != 0
    ensures Abs(TruncDiv(a, b)) <= Abs(a)
    ensures Abs(b) >= 2 ==> 2 * Abs(TruncDiv(a, b)) <= Abs(a)
  {
    var x: int, y: int := Abs(a), Abs(b);
    var q: int, m: int := x / y, x % y;
    assert x == y * q + m && m >= 0 && q >= 0;
    assert Abs(TruncDiv(a, b)) == q;
    MulAtLeast(q, y, 1);
    if y >= 2 {
      MulAtLeast(q, y, 2);
    }
  }

  /** `l / r` on two `i64`s: the zero-divisor panic, the overflow panic of
      `i64::MIN / -1` (the one quotient that does not fit), or the quotient
      rounded toward zero. */
  function Quotient(a: I64, b: I64): (r: Result<Value, RuntimeError>)
    ensures r == Err(DivisionByZero) <==> b == 0
    ensures r == Err(Overflow(Token.Divide)) <==> a == I64_MIN && b == -1
    ensures r.Ok? <==> b != 0 && !(a == I64_MIN && b == -1)
    ensures r.Ok? ==> r.value.Int? && Abs(r.value.i) <= Abs(a)
  {
    if b == 0 then Err(DivisionByZero)
    else
      assert InI64(a) && InI64(b);
      TruncDivBound(a, b);
      assert a == I64_MIN && b == -1 ==> TruncDiv(a, b) == I64_MAX + 1;
      Checked(Token.Divide, TruncDiv(a, b))
  }

  // ---------------------------------------------------------------------------
  // eval_expression

  /** One binary operator applied to the values of its operands. */
  function Apply(op: Token, l: Value, r: Value): (res: Result<Value, RuntimeError>)
    ensures res.Ok? ==> res.value.Int? || res.value.Float? || res.value.String?
    ensures res.Err? && !res.error.DivisionByZero? ==> res.error.op == op
    ensures res == Err(DivisionByZero) ==> op == Token.Divide && l.Int? && r == Int(0)
  {
    match op
    case Plus =>
      (match (l, r)
       case (Int(a), Int(b)) => Checked(op, a + b)
       case (Float(a), Float(b)) => Ok(Value.Float(Arith(a, op, b)))
       case (String(a), String(b)) => Ok(Value.String(a + b))
       case _ => Err(InvalidTypes(op)))
    case Minus =>
      (match (l, r)
       case (Int(a), Int(b)) => Checked(op, a - b)
       case (Float(a), Float(b)) => Ok(Value.Float(Arith(a, op, b)))
       case _ => Err(InvalidTypes(op)))
    case Times =>
      (match (l, r)
       case (Int(a), Int(b)) => Checked(op, a * b)
       case (Float(a), Float(b)) => Ok(Value.Float(Arith(a, op, b)))
       case _ => Err(InvalidTypes(op)))
    case Divide =>
      (match (l, r)
       case (Int(a), Int(b)) => Quotient(a, b)
       case (Float(a), Float(b)) => Ok(Value.Float(Arith(a, op, b)))
       case _ => Err(InvalidTypes(op)))
    case _ => Err(InvalidOperator(op))
  }

  /** `eval_expression`: literals become values, a binary node evaluates its
      left operand, then its right one, then applies the operator; every
      other form is `Null`. */
  function EvalExpression(e: Expression): (r: Result<Value, RuntimeError>)
    ensures r.Err? ==> e.Infix?
    ensures r.Ok? ==> !r.value.Bool?
    ensures r.Ok? ==> (r.value.Null? <==> !e.Integer? && !e.Float? && !e.String? && !e.Infix?)
  {
    match e
    case Integer(i) => Ok(Int(i))
    case Float(f) => Ok(Value.Float(FromLiteral(f)))
    case String(s) => Ok(Value.String(s))
    case Infix(left, op, right) =>
      var l :- EvalExpression(left);
      var r :- EvalExpression(right);
      Apply(op, l, r)
    case _ => Ok(Value.Null)
  }

  // ---------------------------------------------------------------------------
  // eval

  /** The statements `eval` has an arm for. */
  predicate Handled(s: Statement) {
    s.ExpressionStatement? || s.Print?
  }

  predicate AllHandled(ss: seq<Statement>) {
    forall i | 0 <= i < |ss| :: Handled(ss[i])
  }

  /** What running `eval` shows: the values it returns and the values printed
      so far, or the panic that stopped it and what was printed before. */
  datatype Outcome =
    | Completed(values: seq<Value>, output: seq<Value>)
    | Stopped(error: RuntimeError, output: seq<Value>)

  /** Running one outcome's statements and then another's. */
  function Then(a: Outcome, b: Outcome): (r: Outcome)
    ensures r.output == a.output + (if a.Completed? then b.output else [])
    ensures r.Completed? <==> a.Completed? && b.Completed?
    ensures r.Completed? ==> r.values == a.values + b.values
  {
    match a
    case Stopped(_, _) => a
    case Completed(vs, os) =>
      match b
      case Completed(ws, ps) => Completed(vs + ws, os + ps)
      case Stopped(err, ps) => Stopped(err, os + ps)
  }

  /** One statement: an expression statement contributes its value, a print
      statement its output line. */
  function EvalStatement(s: Statement): (r: Outcome)
    requires Handled(s)
    ensures r.Completed? <==> EvalExpression(s.expr).Ok?
    ensures r.Stopped? ==> r.output == [] && r.error == EvalExpression(s.expr).error
    ensures r.Completed? && s.Print? ==> r.values == [] && r.output == [EvalExpression(s.expr).value]
    ensures r.Completed? && !s.Print? ==> r.output == [] && r.values == [EvalExpression(s.expr).value]
  {
    match EvalExpression(s.expr)
    case Err(err) => Stopped(err, [])
    case Ok(v) => if s.Print? then Completed([], [v]) else Completed([v], [])
  }

  /** `eval`, as a definition: the first statement, then the rest. */
  function Eval(ss: seq<Statement>): (r: Outcome)
    requires AllHandled(ss)
    ensures r.Completed? ==> |r.values| + |r.output| == |ss|
    ensures r.Stopped? ==> |r.output| < |ss|
  {
    if |ss| == 0 then Completed([], []) else Then(EvalStatement(ss[0]), Eval(ss[1..]))
  }

  /** `eval` as the source writes it: one pass over the statements,
      collecting values and printed lines, stopping at the first panic. */
  method EvalLoop(ss: seq<Statement>) returns (r: Outcome)
    requires AllHandled(ss)
    ensures r == Eval(ss)
  {
    var values: seq<Value> := [];
    var output: seq<Value> := [];
    var i := 0;
    while i < |ss|
      invariant 0 <= i <= |ss|
      invariant Then(Completed(values, output), Eval(ss[i..])) == Eval(ss)
    {
      var s := EvalStatement(ss[i]);
      ThenAssociative(Completed(values, output), s, Eval(ss[i + 1..]));
      assert ss[i..][1..] == ss[i + 1..];
      if s.Stopped? {
        StoppedAbsorbs(Completed(values, output), s, Eval(ss[i + 1..]));
        return Then(Completed(values, output), s);
      }
      values, output := values + s.values, output + s.output;
      i := i + 1;
    }
    assert ss[i..] == [];
    return Completed(values, output);
  }

  /** Running two outcomes in sequence is associative. */
  lemma ThenAssociative(a: Outcome, b: Outcome, c: Outcome)
    ensures Then(Then(a, b), c) == Then(a, Then(b, c))
  {
    if a.Completed? && b.Completed? && c.Completed? {
      assert (a.values + b.values) + c.values == a.values + (b.values + c.values);
      assert (a.output + b.output) + c.output == a.output + (b.output + c.output);
    } else if a.Completed? && b.Completed? {
      assert (a.output + b.output) + c.output == a.output + (b.output + c.output);
    }
  }

  /** Once a run has stopped, whatever follows is not run. */
  lemma StoppedAbsorbs(a: Outcome, b: Outcome, c: Outcome)
    requires b.Stopped?
    ensures Then(Then(a, b), c) == Then(a, b)
  {
  }
}
