/** Properties of the evaluator in src/eval.rs: what each operator computes on
    `i64`s and strings, which operand kinds and operators it rejects, and what
    `eval` returns for a whole program. */
module EvaluationProperties {
  import opened Results
  import opened Tokens
  import opened Ast
  import opened Evaluation

  // ---------------------------------------------------------------------------
  // literals and the catch-all arm

  /** Integer, float and string literals evaluate to values with the same
      payload; every form the evaluator has no arm for evaluates to `Null`,
      so `-5` is `Null`. */
  lemma LiteralValues(e: Expression)
    ensures e.Integer? ==> EvalExpression(e) == Ok(Int(e.i))
    ensures e.String? ==> EvalExpression(e) == Ok(Value.String(e.s))
    ensures e.Float? ==> EvalExpression(e) == Ok(Value.Float(FromLiteral(e.f)))
    ensures !e.Integer? && !e.Float? && !e.String? && !e.Infix? ==> EvalExpression(e) == Ok(Value.Null)
  {
  }

  /** A binary node never evaluates to `Null` or a boolean, and it fails as
      soon as its left operand fails, before the right one is looked at. */
  lemma InfixOutcome(e: Expression)
    requires e.Infix?
    ensures EvalExpression(e).Ok? ==> EvalExpression(e).value.Int? || EvalExpression(e).value.Float? || EvalExpression(e).value.String?
    ensures EvalExpression(e.left).Err? ==> EvalExpression(e) == Err(EvalExpression(e.left).error)
    ensures EvalExpression(e.left).Ok? && EvalExpression(e.right).Err? ==> EvalExpression(e) == Err(EvalExpression(e.right).error)
  {
    if EvalExpression(e.left).Ok? && EvalExpression(e.right).Ok? {
      ApplyKinds(e.op, EvalExpression(e.left).value, EvalExpression(e.right).value);
    }
  }

  // ---------------------------------------------------------------------------
  // operand kinds and operators

  /** The four operators `eval_expression` has an arm for. */
  predicate Arithmetic(op: Token) {
    op == Token.Plus || op == Token.Minus || op == Token.Times || op == Token.Divide
  }

  /** The operand kinds an arithmetic operator accepts: two integers, two
      floats, or two strings for `+`. */
  predicate KindsFit(op: Token, l: Value, r: Value) {
    || (l.Int? && r.Int?)
    || (l.Float? && r.Float?)
    || (op == Token.Plus && l.String? && r.String?)
  }

  /** An operator other than `+ - * /` is rejected whatever its operands;
      one of those four is rejected for mismatched kinds and for nothing
      else except an integer overflow or a zero divisor. */
  lemma ApplyKinds(op: Token, l: Value, r: Value)
    ensures Apply(op, l, r) == Err(InvalidOperator(op)) <==> !Arithmetic(op)
    ensures Apply(op, l, r) == Err(InvalidTypes(op)) <==> Arithmetic(op) && !KindsFit(op, l, r)
    ensures Apply(op, l, r).Ok? ==> Arithmetic(op) && KindsFit(op, l, r)
    ensures Apply(op, l, r).Ok? ==> (l.Int? <==> Apply(op, l, r).value.Int?)
    ensures Apply(op, l, r).Ok? ==> (l.Float? <==> Apply(op, l, r).value.Float?)
    ensures Apply(op, l, r).Ok? ==> (l.String? <==> Apply(op, l, r).value.String?)
    ensures Arithmetic(op) && KindsFit(op, l, r) && !l.Int? ==> Apply(op, l, r).Ok?
  {
  }

  /** Two strings joined by `+` are concatenated. */
  lemma StringConcatenation(a: string, b: string)
    ensures Apply(Token.Plus, Value.String(a), Value.String(b)) == Ok(Value.String(a + b))
    ensures |Apply(Token.Plus, Value.String(a), Value.String(b)).value.s| == |a| + |b|
  {
  }

  // ---------------------------------------------------------------------------
  // i64 arithmetic

  /** The exact result of an integer operator other than division. */
  function Exact(op: Token, a: int, b: int): int
    requires op == Token.Plus || op == Token.Minus || op == Token.Times
  {
    if op == Token.Plus then a + b else if op == Token.Minus then a - b else a * b
  }

  /** `+`, `-` and `*` on two `i64`s give the mathematical result when it fits
      in an `i64`, and the overflow panic exactly when it does not. */
  lemma IntArithmetic(op: Token, a: I64, b: I64)
    requires op == Token.Plus || op == Token.Minus || op == Token.Times
    ensures Apply(op, Int(a), Int(b)).Ok? <==> InI64(Exact(op, a, b))
    ensures InI64(Exact(op, a, b)) ==> Apply(op, Int(a), Int(b)) == Ok(Int(Exact(op, a, b)))
    ensures !InI64(Exact(op, a, b)) ==> Apply(op, Int(a), Int(b)) == Err(Overflow(op))
  {
  }

  /** The quotient rounded toward zero leaves a remainder smaller than the
      divisor and of the dividend's sign. */
  lemma TruncDivRemainder(a: int, b: int)
    requires b != 0
    ensures Abs(a - b * TruncDiv(a, b)) < Abs(b)
    ensures a - b * TruncDiv(a, b) == 0 || (a - b * TruncDiv(a, b) < 0 <==> a < 0)
  {
    var x: int, y: int := Abs(a), Abs(b);
    var q: int, m: int := x / y, x % y;
    assert x == y * q + m && 0 <= m < y;
    MulSigns(y, q);
    if a >= 0 && b > 0 {
      assert a - b * TruncDiv(a, b) == x - y * q;
    } else if a >= 0 {
      assert a - b * TruncDiv(a, b) == x - (-y) * (-q);
    } else if b > 0 {
      assert a - b * TruncDiv(a, b) == -x - y * (-q);
    } else {
      assert a - b * TruncDiv(a, b) == -x - (-y) * q;
    }
  }

  /** Signs of a product. */
  lemma MulSigns(y: int, q: int)
    ensures (-y) * q == -(y * q) && y * (-q) == -(y * q) && (-y) * (-q) == y * q
  {
  }

  /** The remainder condition pins the quotient down: `TruncDiv` is the only
      quotient with it. */
  lemma TruncDivUnique(a: int, b: int, q: int)
    requires b != 0
    requires Abs(a - b * q) < Abs(b)
    requires a - b * q == 0 || (a - b * q < 0 <==> a < 0)
    ensures q == TruncDiv(a, b)
  {
    TruncDivRemainder(a, b);
    var t := TruncDiv(a, b);
    var r, s := a - b * t, a - b * q;
    RemaindersClose(a, Abs(b), r, s);
    assert b * (q - t) == r - s;
    SmallMultiple(b, q - t);
  }

  /** Two remainders of the same sign, each smaller than `y`, differ by less
      than `y`. */
  lemma RemaindersClose(a: int, y: int, r: int, s: int)
    requires Abs(r) < y && (r == 0 || (r < 0 <==> a < 0))
    requires Abs(s) < y && (s == 0 || (s < 0 <==> a < 0))
    ensures Abs(r - s) < y
  {
  }

  /** A non-zero multiple of `b` is at least as large as `b`. */
  lemma SmallMultiple(b: int, d: int)
    ensures d != 0 ==> Abs(b * d) >= Abs(b)
  {
    if d > 0 {
      assert Abs(b * d) == Abs(b) * d;
      MulAtLeast(Abs(b), d, 1);
    } else if d < 0 {
      assert Abs(b * d) == Abs(b) * -d;
      MulAtLeast(Abs(b), -d, 1);
    }
  }

  /** `/` on two `i64`s panics exactly on a zero divisor and on
      `i64::MIN / -1`, whose quotient does not fit; otherwise it gives the
      quotient rounded toward zero. */
  lemma IntDivision(a: I64, b: I64)
    ensures Apply(Token.Divide, Int(a), Int(b)) == Err(DivisionByZero) <==> b == 0
    ensures Apply(Token.Divide, Int(a), Int(b)) == Err(Overflow(Token.Divide)) <==> b != 0 && a == I64_MIN && b == -1
    ensures b != 0 && !(a == I64_MIN && b == -1) ==> Apply(Token.Divide, Int(a), Int(b)) == Ok(Int(TruncDiv(a, b)))
  {
    if b != 0 {
      TruncDivBound(a, b);
      if a == I64_MIN && b == -1 {
        assert TruncDiv(a, b) == I64_MAX + 1;
      }
    }
  }

  // ---------------------------------------------------------------------------
  // eval over a program

  /** The expressions of the expression statements, in order. */
  function ExpressionsOf(ss: seq<Statement>): (es: seq<Expression>)
    ensures |es| <= |ss|
  {
    if |ss| == 0 then []
    else (if ss[0].ExpressionStatement? then [ss[0].expr] else []) + ExpressionsOf(ss[1..])
  }

  /** The expressions of the print statements, in order. */
  function PrintsOf(ss: seq<Statement>): (es: seq<Expression>)
    ensures |es| <= |ss|
  {
    if |ss| == 0 then []
    else (if ss[0].Print? then [ss[0].expr] else []) + PrintsOf(ss[1..])
  }

  /** Every expression in `es` evaluates, to the matching value of `vs`. */
  predicate EvaluatesTo(es: seq<Expression>, vs: seq<Value>) {
    |es| == |vs| && forall j | 0 <= j < |es| :: EvalExpression(es[j]) == Ok(vs[j])
  }

  /** Lists of expressions and their values can be put together. */
  lemma EvaluatesToAppend(es: seq<Expression>, vs: seq<Value>, fs: seq<Expression>, ws: seq<Value>)
    requires EvaluatesTo(es, vs) && EvaluatesTo(fs, ws)
    ensures EvaluatesTo(es + fs, vs + ws)
  {
    forall j | 0 <= j < |es + fs|
      ensures EvalExpression((es + fs)[j]) == Ok((vs + ws)[j])
    {
      if j >= |es| {
        assert (es + fs)[j] == fs[j - |es|] && (vs + ws)[j] == ws[j - |es|];
      }
    }
  }

  /** The statements before `i` all evaluate. */
  predicate EvaluatesUpTo(ss: seq<Statement>, i: nat)
    requires AllHandled(ss) && i <= |ss|
  {
    forall j | 0 <= j < i :: EvalExpression(ss[j].expr).Ok?
  }

  /** `eval` completes exactly when every statement's expression evaluates;
      it then returns one value per expression statement, in order, and
      prints one value per print statement, in order. */
  lemma {:induction false} EvalCompleted(ss: seq<Statement>)
    requires AllHandled(ss)
    ensures Eval(ss).Completed? <==> EvaluatesUpTo(ss, |ss|)
    ensures Eval(ss).Completed? ==> EvaluatesTo(ExpressionsOf(ss), Eval(ss).values)
    ensures Eval(ss).Completed? ==> EvaluatesTo(PrintsOf(ss), Eval(ss).output)
    decreases |ss|
  {
    if |ss| > 0 {
      var rest := ss[1..];
      assert AllHandled(rest) by {
        forall j | 0 <= j < |rest| ensures Handled(rest[j]) {
          assert rest[j] == ss[j + 1];
        }
      }
      EvalCompleted(rest);
      assert EvaluatesUpTo(ss, |ss|) <==> EvalExpression(ss[0].expr).Ok? && EvaluatesUpTo(rest, |rest|) by {
        forall j | 0 <= j < |rest| ensures rest[j] == ss[j + 1] {
        }
      }
      var first := EvalStatement(ss[0]);
      if first.Completed? && Eval(rest).Completed? {
        var head := if ss[0].ExpressionStatement? then [ss[0].expr] else [];
        var shown := if ss[0].Print? then [ss[0].expr] else [];
        assert EvaluatesTo(head, first.values);
        assert EvaluatesTo(shown, first.output);
        EvaluatesToAppend(head, first.values, ExpressionsOf(rest), Eval(rest).values);
        EvaluatesToAppend(shown, first.output, PrintsOf(rest), Eval(rest).output);
      }
    }
  }

  /** When `eval` stops, it stops at the first statement whose expression
      fails, with that statement's error, having printed exactly what the
      statements before it print. */
  lemma {:induction false} EvalStopped(ss: seq<Statement>) returns (i: nat)
    requires AllHandled(ss) && Eval(ss).Stopped?
    ensures i < |ss| && EvaluatesUpTo(ss, i)
    ensures EvalExpression(ss[i].expr) == Err(Eval(ss).error)
    ensures Eval(ss).output == Eval(ss[..i]).output
    decreases |ss|
  {
    var rest := ss[1..];
    assert AllHandled(rest) by {
      forall j | 0 <= j < |rest| ensures Handled(rest[j]) {
        assert rest[j] == ss[j + 1];
      }
    }
    var first := EvalStatement(ss[0]);
    if first.Stopped? {
      i := 0;
      assert ss[..0] == [];
    } else {
      var k := EvalStopped(rest);
      i := k + 1;
      assert ss[i] == rest[k];
      forall j | 0 <= j < i ensures EvalExpression(ss[j].expr).Ok? {
        if j > 0 {
          assert ss[j] == rest[j - 1];
        }
      }
      assert ss[..i][0] == ss[0] && ss[..i][1..] == rest[..k];
    }
  }

  /** Evaluating two programs one after the other is evaluating their
      concatenation. */
  lemma {:induction false} EvalAppend(a: seq<Statement>, b: seq<Statement>)
    requires AllHandled(a) && AllHandled(b)
    ensures AllHandled(a + b)
    ensures Eval(a + b) == Then(Eval(a), Eval(b))
    decreases |a|
  {
    assert AllHandled(a + b) by {
      forall j | 0 <= j < |a + b| ensures Handled((a + b)[j]) {
        if j >= |a| {
          assert (a + b)[j] == b[j - |a|];
        }
      }
    }
    if |a| == 0 {
      assert a + b == b;
    } else {
      assert (a + b)[1..] == a[1..] + b;
      assert AllHandled(a[1..]) by {
        forall j | 0 <= j < |a[1..]| ensures Handled(a[1..][j]) {
          assert a[1..][j] == a[j + 1];
        }
      }
      EvalAppend(a[1..], b);
      ThenAssociative(EvalStatement(a[0]), Eval(a[1..]), Eval(b));
    }
  }
}
