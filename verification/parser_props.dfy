/** Properties of the parser as a whole: the statement-level round trip,
    the fate of a statement that cannot begin, and the behaviour on a few
    representative token vectors. */
module ParserProperties {
  import opened Results
  import opened Tokens
  import opened Ast
  import opened Parsing
  import opened ParserRoundTrip

  /** A failure or panic at the prefix level passes unchanged through every
      binary level above it. */
  lemma {:induction false} FailureRises(k: nat, toks: seq<Token>, pos: nat)
    requires Valid(toks, pos) && 1 <= k <= 7
    requires !ParseLevel(1, toks, pos).Parsed?
    ensures ParseLevel(k, toks, pos) == ParseLevel(1, toks, pos)
  {
    if k >= 2 {
      FailureRises(k - 1, toks, pos);
    }
  }

  /** An expression cannot begin with anything but a literal, `(`, `-` or
      `!`: the parser reports "Expected expression" where it stands. */
  lemma NoOperand(toks: seq<Token>, pos: nat)
    requires Valid(toks, pos) && !StartsOperand(toks[pos])
    ensures ParseExpression(toks, pos) == Failed("Expected expression", pos)
  {
    assert ParseAtom(toks, pos) == Failed("Expected expression", pos);
    assert ParseLevel(1, toks, pos) == Failed("Expected expression", pos);
    FailureRises(7, toks, pos);
  }

  /** A statement that cannot begin makes `parse` repeat forever at that
      token, unless it is `Eof`. */
  lemma StuckAtNonOperand(toks: seq<Token>, pos: nat)
    requires Valid(toks, pos) && !StartsOperand(toks[pos]) && toks[pos] != Token.Print
    ensures ParseFrom(toks, pos) == (if toks[pos] == Token.Eof then Program([]) else Stuck(pos))
  {
    NoOperand(toks, pos);
  }

  /** The tokens of a statement: a print statement starts with `print`, and
      both end with `;`. */
  function EmitStatement(s: Statement): (ts: seq<Token>)
    requires ParsedStatement(s)
    ensures |ts| > 0
  {
    if s.Print? then [Token.Print] + Emit(s.expr, 7) + [Token.SemiColon]
    else Emit(s.expr, 7) + [Token.SemiColon]
  }

  /** The tokens of a program, statement after statement. */
  function EmitProgram(ss: seq<Statement>): (ts: seq<Token>)
    requires ParsedProgram(ss)
    ensures |ss| > 0 ==> |ts| > 0
  {
    if |ss| == 0 then [] else EmitStatement(ss[0]) + EmitProgram(ss[1..])
  }

  /** An expression followed by `;` is an expression statement. */
  lemma ExpressionStatementStep(toks: seq<Token>, pos: nat, e: Expression, q: nat)
    requires Valid(toks, pos) && toks[pos] != Token.Print
    requires ParseExpression(toks, pos) == Parsed(e, q)
    requires q + 1 < |toks| && toks[q] == Token.SemiColon
    ensures Declaration(toks, pos) == Parsed(Some(Statement.ExpressionStatement(e)), q + 1)
  {
    assert Consume(toks, q, Token.SemiColon, "Expected ';' after expression.") == Parsed(Token.SemiColon, q + 1);
    assert ParseStatement(toks, pos) == Parsing.ExpressionStatement(toks, pos);
  }

  /** `print`, an expression and `;` make a print statement. */
  lemma PrintStatementStep(toks: seq<Token>, pos: nat, e: Expression, q: nat)
    requires Valid(toks, pos) && toks[pos] == Token.Print && pos + 1 < |toks|
    requires ParseExpression(toks, pos + 1) == Parsed(e, q)
    requires q + 1 < |toks| && toks[q] == Token.SemiColon
    ensures Declaration(toks, pos) == Parsed(Some(Statement.Print(e)), q + 1)
  {
    assert Consume(toks, q, Token.SemiColon, "Expected ; after print") == Parsed(Token.SemiColon, q + 1);
    assert ParseStatement(toks, pos) == PrintStatement(toks, pos);
  }

  /** The tokens of a print statement. */
  lemma EmitPrint(s: Statement)
    requires ParsedStatement(s) && s.Print?
    ensures EmitStatement(s) == [Token.Print] + Emit(s.expr, 7) + [Token.SemiColon]
    ensures |EmitStatement(s)| == 1 + |Emit(s.expr, 7)| + 1
  {
  }

  /** The tokens of an expression statement. */
  lemma EmitExpressionStatement(s: Statement)
    requires ParsedStatement(s) && !s.Print?
    ensures EmitStatement(s) == Emit(s.expr, 7) + [Token.SemiColon]
    ensures |EmitStatement(s)| == |Emit(s.expr, 7)| + 1
  {
  }

  /** A declaration reads back the tokens of one statement. */
  lemma StatementRoundTrip(s: Statement, toks: seq<Token>, a: nat)
    requires ParsedStatement(s) && WellFormed(toks)
    requires Laid(toks, a, EmitStatement(s)) && a + |EmitStatement(s)| < |toks|
    ensures Valid(toks, a)
    ensures Declaration(toks, a) == Parsed(Some(s), a + |EmitStatement(s)|)
  {
    if s.Print? {
      PrintRoundTrip(s, toks, a);
    } else {
      ExpressionStatementRoundTrip(s, toks, a);
    }
  }

  /** The print case of `StatementRoundTrip`. */
  lemma PrintRoundTrip(s: Statement, toks: seq<Token>, a: nat)
    requires ParsedStatement(s) && s.Print? && WellFormed(toks)
    requires Laid(toks, a, EmitStatement(s)) && a + |EmitStatement(s)| < |toks|
    ensures Valid(toks, a)
    ensures Declaration(toks, a) == Parsed(Some(s), a + |EmitStatement(s)|)
  {
    EmitPrint(s);
    LaidBetween(toks, a, Token.Print, Emit(s.expr, 7), Token.SemiColon);
    ExpressionRoundTrip(s.expr, toks, a + 1);
    PrintStatementStep(toks, a, s.expr, a + 1 + |Emit(s.expr, 7)|);
  }

  /** The expression-statement case of `StatementRoundTrip`. */
  lemma ExpressionStatementRoundTrip(s: Statement, toks: seq<Token>, a: nat)
    requires ParsedStatement(s) && !s.Print? && WellFormed(toks)
    requires Laid(toks, a, EmitStatement(s)) && a + |EmitStatement(s)| < |toks|
    ensures Valid(toks, a)
    ensures Declaration(toks, a) == Parsed(Some(s), a + |EmitStatement(s)|)
  {
    EmitExpressionStatement(s);
    LaidLast(toks, a, Emit(s.expr, 7), Token.SemiColon);
    ExpressionRoundTrip(s.expr, toks, a);
    EmitStart(s.expr, 7);
    ExpressionStatementStep(toks, a, s.expr, a + |Emit(s.expr, 7)|);
  }

  /** One turn of the `parse` loop after a statement was read. */
  lemma ParseFromStep(toks: seq<Token>, pos: nat, s: Statement, p: nat, rest: seq<Statement>)
    requires Valid(toks, pos) && Valid(toks, p) && pos < p
    requires Declaration(toks, pos) == Parsed(Some(s), p)
    requires ParseFrom(toks, p) == Program(rest)
    requires Done(toks, p) ==> |rest| == 0
    ensures ParseFrom(toks, pos) == Program([s] + rest)
  {
    if Done(toks, p) {
      assert [s] + rest == [s];
    }
  }

  /** One turn of the `parse` loop after a statement failed and moved the
      cursor. */
  lemma ParseFromSkip(toks: seq<Token>, pos: nat, p: nat, rest: seq<Statement>)
    requires Valid(toks, pos) && Valid(toks, p) && pos < p && !Done(toks, p)
    requires Declaration(toks, pos) == Parsed(None, p)
    requires ParseFrom(toks, p) == Program(rest)
    ensures ParseFrom(toks, pos) == Program(rest)
  {
    assert [] + rest == rest;
  }

  /** A non-empty program the parser builds is its first statement followed
      by a shorter such program. */
  lemma ProgramSplit(ss: seq<Statement>)
    requires |ss| > 0 && ParsedProgram(ss)
    ensures ParsedStatement(ss[0]) && ParsedProgram(ss[1..])
    ensures ss == [ss[0]] + ss[1..]
  {
    assert forall i | 0 <= i < |ss[1..]| :: ss[1..][i] == ss[i + 1];
  }

  /** The tokens of a non-empty program: its first statement's, then the rest's. */
  lemma ProgramCons(ss: seq<Statement>)
    requires |ss| > 0 && ParsedProgram(ss)
    ensures ParsedStatement(ss[0]) && ParsedProgram(ss[1..])
    ensures EmitProgram(ss) == EmitStatement(ss[0]) + EmitProgram(ss[1..])
    ensures |EmitProgram(ss)| == |EmitStatement(ss[0])| + |EmitProgram(ss[1..])|
  {
    ProgramSplit(ss);
  }

  /** Where the tokens of the first statement and of the rest of a printed
      program stand. */
  lemma ProgramLaid(ss: seq<Statement>, toks: seq<Token>, a: nat) returns (p: nat)
    requires |ss| > 0 && ParsedProgram(ss)
    requires Laid(toks, a, EmitProgram(ss)) && a + |EmitProgram(ss)| == |toks| - 1
    ensures ParsedStatement(ss[0]) && ParsedProgram(ss[1..]) && ss == [ss[0]] + ss[1..]
    ensures p == a + |EmitStatement(ss[0])| && Laid(toks, a, EmitStatement(ss[0]))
    ensures Laid(toks, p, EmitProgram(ss[1..])) && p + |EmitProgram(ss[1..])| == |toks| - 1
    ensures |ss| > 1 ==> toks[p] != Token.Eof
  {
    ProgramSplit(ss);
    ProgramCons(ss);
    LaidSplit(toks, a, EmitStatement(ss[0]), EmitProgram(ss[1..]));
    p := a + |EmitStatement(ss[0])|;
    if |ss| > 1 {
      ProgramStart(ss[1..]);
      assert toks[p + 0] == EmitProgram(ss[1..])[0];
    }
  }

  /** A printed program never starts with `Eof`. */
  lemma ProgramStart(ss: seq<Statement>)
    requires |ss| > 0 && ParsedProgram(ss)
    ensures EmitProgram(ss)[0] != Token.Eof
  {
    ProgramCons(ss);
    var s := ss[0];
    if s.Print? {
      EmitPrint(s);
    } else {
      EmitExpressionStatement(s);
      EmitStart(s.expr, 7);
    }
  }

  /** The first statement of a printed program is read back, and the cursor
      lands on the tokens of the rest of the program. */
  lemma ProgramHead(ss: seq<Statement>, toks: seq<Token>, a: nat) returns (p: nat)
    requires |ss| > 0 && ParsedProgram(ss) && WellFormed(toks)
    requires Laid(toks, a, EmitProgram(ss)) && a + |EmitProgram(ss)| == |toks| - 1
    ensures ParsedProgram(ss[1..]) && ss == [ss[0]] + ss[1..]
    ensures Laid(toks, p, EmitProgram(ss[1..])) && p + |EmitProgram(ss[1..])| == |toks| - 1
    ensures Valid(toks, a) && Valid(toks, p) && a < p
    ensures Declaration(toks, a) == Parsed(Some(ss[0]), p)
    ensures Done(toks, p) ==> |ss| == 1
  {
    p := ProgramLaid(ss, toks, a);
    StatementRoundTrip(ss[0], toks, a);
  }

  /** `parse` reads back the tokens of a program, from any statement on. */
  lemma {:induction false} ProgramFrom(ss: seq<Statement>, toks: seq<Token>, a: nat)
    requires ParsedProgram(ss) && WellFormed(toks)
    requires Laid(toks, a, EmitProgram(ss)) && a + |EmitProgram(ss)| == |toks| - 1
    ensures Valid(toks, a)
    ensures ParseFrom(toks, a) == Program(ss)
    decreases |ss|
  {
    if |ss| == 0 {
      StuckAtNonOperand(toks, a);
    } else {
      var p := ProgramHead(ss, toks, a);
      ProgramFrom(ss[1..], toks, p);
      ParseFromStep(toks, a, ss[0], p, ss[1..]);
    }
  }

  /** Parsing the tokens of any program the parser can build gives that
      program back: together with the contract of `Parse`, the programs
      `Parse` returns are exactly those `EmitProgram` can print. */
  lemma ParseRoundTrip(ss: seq<Statement>)
    requires ParsedProgram(ss)
    ensures WellFormed(EmitProgram(ss) + [Token.Eof])
    ensures Parse(EmitProgram(ss) + [Token.Eof]) == Program(ss)
  {
    LaidFront(EmitProgram(ss), [Token.Eof]);
    ProgramFrom(ss, EmitProgram(ss) + [Token.Eof], 0);
  }

  // ---------------------------------------------------------------------------
  // representative inputs

  /** The tokens of `a + b * c;`. */
  lemma FactorTokens(a: I64, b: I64, c: I64)
    ensures ParsedStatement(FactorStatement(a, b, c))
    ensures EmitProgram([FactorStatement(a, b, c)]) + [Token.Eof]
         == [Token.Integer(a), Token.Plus, Token.Integer(b), Token.Times, Token.Integer(c), Token.SemiColon, Token.Eof]
  {
    var st := FactorStatement(a, b, c);
    var bc := Expression.Infix(Expression.Integer(b), Token.Times, Expression.Integer(c));
    assert Parseable(Expression.Integer(b)) && Parseable(Expression.Integer(c));
    assert Parseable(bc) && Parseable(Expression.Integer(a));
    assert Emit(Expression.Integer(b), 2) == [Token.Integer(b)];
    assert Emit(Expression.Integer(c), 1) == [Token.Integer(c)];
    assert Emit(bc, 2) == [Token.Integer(b), Token.Times, Token.Integer(c)];
    assert Emit(Expression.Integer(a), 3) == [Token.Integer(a)];
    assert Emit(st.expr, 7) == [Token.Integer(a), Token.Plus, Token.Integer(b), Token.Times, Token.Integer(c)];
    assert [st][1..] == [];
  }

  function FactorStatement(a: I64, b: I64, c: I64): Statement {
    Statement.ExpressionStatement(
      Expression.Infix(Expression.Integer(a), Token.Plus,
        Expression.Infix(Expression.Integer(b), Token.Times, Expression.Integer(c))))
  }

  /** `a + b * c;` — the factor level binds tighter than the term level. */
  lemma FactorBindsTighter(a: I64, b: I64, c: I64)
    ensures Parse([Token.Integer(a), Token.Plus, Token.Integer(b), Token.Times, Token.Integer(c), Token.SemiColon, Token.Eof])
         == Program([Statement.ExpressionStatement(
              Expression.Infix(Expression.Integer(a), Token.Plus,
                Expression.Infix(Expression.Integer(b), Token.Times, Expression.Integer(c))))])
  {
    FactorTokens(a, b, c);
    ParseRoundTrip([FactorStatement(a, b, c)]);
  }

  function SubtractionStatement(a: I64, b: I64, c: I64): Statement {
    Statement.ExpressionStatement(
      Expression.Infix(Expression.Infix(Expression.Integer(a), Token.Minus, Expression.Integer(b)),
        Token.Minus, Expression.Integer(c)))
  }

  /** The tokens of `a - b - c;`. */
  lemma SubtractionTokens(a: I64, b: I64, c: I64)
    ensures ParsedStatement(SubtractionStatement(a, b, c))
    ensures EmitProgram([SubtractionStatement(a, b, c)]) + [Token.Eof]
         == [Token.Integer(a), Token.Minus, Token.Integer(b), Token.Minus, Token.Integer(c), Token.SemiColon, Token.Eof]
  {
    var st := SubtractionStatement(a, b, c);
    var ab := Expression.Infix(Expression.Integer(a), Token.Minus, Expression.Integer(b));
    assert Parseable(Expression.Integer(a)) && Parseable(Expression.Integer(b));
    assert Parseable(ab) && Parseable(Expression.Integer(c));
    assert Emit(Expression.Integer(a), 3) == [Token.Integer(a)];
    assert Emit(Expression.Integer(b), 2) == [Token.Integer(b)];
    assert Emit(ab, 3) == [Token.Integer(a), Token.Minus, Token.Integer(b)];
    assert Emit(Expression.Integer(c), 2) == [Token.Integer(c)];
    assert Emit(st.expr, 7) == [Token.Integer(a), Token.Minus, Token.Integer(b), Token.Minus, Token.Integer(c)];
    assert [st][1..] == [];
  }

  /** `a - b - c;` — operators of one level group to the left. */
  lemma SubtractionGroupsLeft(a: I64, b: I64, c: I64)
    ensures Parse([Token.Integer(a), Token.Minus, Token.Integer(b), Token.Minus, Token.Integer(c), Token.SemiColon, Token.Eof])
         == Program([Statement.ExpressionStatement(
              Expression.Infix(Expression.Infix(Expression.Integer(a), Token.Minus, Expression.Integer(b)),
                Token.Minus, Expression.Integer(c)))])
  {
    SubtractionTokens(a, b, c);
    ParseRoundTrip([SubtractionStatement(a, b, c)]);
  }

  function GroupedStatement(a: I64, b: I64, c: I64): Statement {
    Statement.Print(
      Expression.Infix(Expression.Infix(Expression.Integer(a), Token.Plus, Expression.Integer(b)),
        Token.Times, Expression.Integer(c)))
  }

  /** The tokens of `print (a + b) * c;`. */
  lemma GroupedTokens(a: I64, b: I64, c: I64)
    ensures ParsedStatement(GroupedStatement(a, b, c))
    ensures EmitProgram([GroupedStatement(a, b, c)]) + [Token.Eof]
         == [Token.Print, Token.LeftParen, Token.Integer(a), Token.Plus, Token.Integer(b), Token.RightParen,
             Token.Times, Token.Integer(c), Token.SemiColon, Token.Eof]
  {
    var st := GroupedStatement(a, b, c);
    var ab := Expression.Infix(Expression.Integer(a), Token.Plus, Expression.Integer(b));
    assert Parseable(Expression.Integer(a)) && Parseable(Expression.Integer(b));
    assert Parseable(ab) && Parseable(Expression.Integer(c));
    assert Emit(Expression.Integer(a), 3) == [Token.Integer(a)];
    assert Emit(Expression.Integer(b), 2) == [Token.Integer(b)];
    assert Bare(ab) == [Token.Integer(a), Token.Plus, Token.Integer(b)];
    assert Emit(Expression.Integer(c), 1) == [Token.Integer(c)];
    assert Emit(ab, 2) == [Token.LeftParen, Token.Integer(a), Token.Plus, Token.Integer(b), Token.RightParen];
    assert Emit(st.expr, 7) == [Token.LeftParen, Token.Integer(a), Token.Plus, Token.Integer(b), Token.RightParen,
                                Token.Times, Token.Integer(c)];
    assert [st][1..] == [];
  }

  /** `print (a + b) * c;` — parentheses regroup and leave no node behind. */
  lemma ParenthesesRegroup(a: I64, b: I64, c: I64)
    ensures Parse([Token.Print, Token.LeftParen, Token.Integer(a), Token.Plus, Token.Integer(b), Token.RightParen,
                   Token.Times, Token.Integer(c), Token.SemiColon, Token.Eof])
         == Program([Statement.Print(
              Expression.Infix(Expression.Infix(Expression.Integer(a), Token.Plus, Expression.Integer(b)),
                Token.Times, Expression.Integer(c)))])
  {
    GroupedTokens(a, b, c);
    ParseRoundTrip([GroupedStatement(a, b, c)]);
  }

  /** The tokens `- - n ; Eof` hold the statement `-n;` from the second token on. */
  lemma DoublePrefixTokens(toks: seq<Token>, n: I64)
    requires toks == [Token.Minus, Token.Minus, Token.Integer(n), Token.SemiColon, Token.Eof]
    ensures ParsedProgram([Statement.ExpressionStatement(Expression.Prefix(Token.Minus, Expression.Integer(n)))])
    ensures Laid(toks, 1, EmitProgram([Statement.ExpressionStatement(Expression.Prefix(Token.Minus, Expression.Integer(n)))]))
    ensures |EmitProgram([Statement.ExpressionStatement(Expression.Prefix(Token.Minus, Expression.Integer(n)))])| == 3
  {
    var st := Statement.ExpressionStatement(Expression.Prefix(Token.Minus, Expression.Integer(n)));
    assert Parseable(Expression.Integer(n)) && Parseable(st.expr);
    assert Emit(Expression.Integer(n), 0) == [Token.Integer(n)];
    assert Emit(st.expr, 7) == [Token.Minus, Token.Integer(n)];
    assert [st][1..] == [];
    assert EmitProgram([st]) == toks[1..4];
    forall i | 0 <= i < 3 ensures toks[1 + i] == toks[1..4][i] {
    }
  }

  /** In `- - n;` the statement read from the first token fails at the second. */
  lemma FirstAttemptFails(toks: seq<Token>, n: I64)
    requires toks == [Token.Minus, Token.Minus, Token.Integer(n), Token.SemiColon, Token.Eof]
    ensures Declaration(toks, 0) == Parsed(None, 1)
  {
    assert ParseAtom(toks, 1) == Failed("Expected expression", 1);
    assert ParseLevel(1, toks, 0) == Failed("Expected expression", 1);
    FailureRises(7, toks, 0);
    assert Parsing.ExpressionStatement(toks, 0) == Failed("Expected expression", 1);
  }

  /** `- - n;` — a prefix operator applies only to an atom, so the first
      statement attempt fails at the second `-`; the failure is dropped and
      parsing resumes there, keeping only `-n`. */
  lemma DoublePrefixDropsFirst(n: I64)
    ensures Parse([Token.Minus, Token.Minus, Token.Integer(n), Token.SemiColon, Token.Eof])
         == Program([Statement.ExpressionStatement(Expression.Prefix(Token.Minus, Expression.Integer(n)))])
  {
    DoublePrefixParse([Token.Minus, Token.Minus, Token.Integer(n), Token.SemiColon, Token.Eof], n);
  }

  /** `DoublePrefixDropsFirst`, for a token vector known only by its value. */
  lemma DoublePrefixParse(toks: seq<Token>, n: I64)
    requires toks == [Token.Minus, Token.Minus, Token.Integer(n), Token.SemiColon, Token.Eof]
    ensures Parse(toks) == Program([Statement.ExpressionStatement(Expression.Prefix(Token.Minus, Expression.Integer(n)))])
  {
    var st := Statement.ExpressionStatement(Expression.Prefix(Token.Minus, Expression.Integer(n)));
    FirstAttemptFails(toks, n);
    DoublePrefixTokens(toks, n);
    ProgramFrom([st], toks, 1);
    ParseFromSkip(toks, 0, 1, [st]);
  }

  /** A statement that starts with an unrecognised character never gets past
      it. */
  lemma IllegalStartIsStuck(c: char, pos: nat, line: nat)
    ensures Parse([Token.Illegal(c, pos, line), Token.SemiColon, Token.Eof]) == Stuck(0)
  {
    StuckAtNonOperand([Token.Illegal(c, pos, line), Token.SemiColon, Token.Eof], 0);
  }

  /** An integer literal followed by a token that is not a binary operator is
      a whole expression. */
  lemma IntegerExpression(toks: seq<Token>, a: nat, n: I64)
    requires WellFormed(toks) && a + 1 < |toks|
    requires toks[a] == Token.Integer(n) && OperatorRank(toks[a + 1]) == 0
    ensures ParseExpression(toks, a) == Parsed(Expression.Integer(n), a + 1)
  {
    var e := Expression.Integer(n);
    assert Emit(e, 7) == [Token.Integer(n)];
    assert toks[a + 0] == Emit(e, 7)[0];
    ExpressionRoundTrip(e, toks, a);
  }

  /** A missing `;` is a panic. */
  lemma MissingSemicolonAborts(n: I64)
    ensures Parse([Token.Integer(n), Token.Eof]) == Aborted("Expected ';' after expression.")
  {
    var toks := [Token.Integer(n), Token.Eof];
    var message := "Expected ';' after expression.";
    IntegerExpression(toks, 0, n);
    assert Consume(toks, 1, Token.SemiColon, message) == Panicked(message);
    assert Parsing.ExpressionStatement(toks, 0) == Panicked(message);
    assert Declaration(toks, 0) == Panicked(message);
  }

  /** A missing `)` is a panic. */
  lemma MissingParenAborts(n: I64)
    ensures Parse([Token.LeftParen, Token.Integer(n), Token.SemiColon, Token.Eof])
         == Aborted("Expected ')' after expression.")
  {
    var toks := [Token.LeftParen, Token.Integer(n), Token.SemiColon, Token.Eof];
    var message := "Expected ')' after expression.";
    IntegerExpression(toks, 1, n);
    assert Consume(toks, 2, Token.RightParen, message) == Panicked(message);
    assert ParseAtom(toks, 0) == Panicked(message);
    assert ParseLevel(1, toks, 0) == Panicked(message);
    FailureRises(7, toks, 0);
    assert Declaration(toks, 0) == Panicked(message);
  }

  /** `-` or `!` followed by `-` or `!`: the prefix rule wants an atom after
      the operator, so the expression fails at the second operator, and the
      statement is dropped with the cursor left there. */
  lemma PrefixOfPrefixFails(toks: seq<Token>, pos: nat)
    requires Valid(toks, pos) && pos + 1 < |toks|
    requires toks[pos] == Token.Minus || toks[pos] == Token.Bang
    requires toks[pos + 1] == Token.Minus || toks[pos + 1] == Token.Bang
    ensures ParsePrefix(toks, pos) == Failed("Expected expression", pos + 1)
    ensures ParseExpression(toks, pos) == Failed("Expected expression", pos + 1)
    ensures Declaration(toks, pos) == Parsed(None, pos + 1)
  {
    assert ParseAtom(toks, pos + 1) == Failed("Expected expression", pos + 1);
    assert ParseLevel(1, toks, pos) == Failed("Expected expression", pos + 1);
    FailureRises(7, toks, pos);
  }

  /** An expression statement whose expression is not followed by `;` makes
      `parse` panic. */
  lemma ExpressionWithoutSemicolonAborts(toks: seq<Token>, pos: nat, e: Expression, q: nat)
    requires Valid(toks, pos) && toks[pos] != Token.Print
    requires ParseExpression(toks, pos) == Parsed(e, q) && toks[q] != Token.SemiColon
    ensures ParseFrom(toks, pos) == Aborted("Expected ';' after expression.")
  {
    assert Parsing.ExpressionStatement(toks, pos) == Panicked("Expected ';' after expression.");
  }

  /** A print statement whose expression is not followed by `;` makes `parse`
      panic. */
  lemma PrintWithoutSemicolonAborts(toks: seq<Token>, pos: nat, e: Expression, q: nat)
    requires Valid(toks, pos) && toks[pos] == Token.Print
    requires ParseExpression(toks, pos + 1) == Parsed(e, q) && toks[q] != Token.SemiColon
    ensures ParseFrom(toks, pos) == Aborted("Expected ; after print")
  {
    assert PrintStatement(toks, pos) == Panicked("Expected ; after print");
  }

  /** A `(` whose inner expression is not followed by `)` is a panic of the
      atom rule, which passes through every level above it and, at the start
      of a statement, ends `parse`. */
  lemma UnclosedParenPanics(toks: seq<Token>, pos: nat, e: Expression, q: nat)
    requires Valid(toks, pos) && toks[pos] == Token.LeftParen
    requires ParseExpression(toks, pos + 1) == Parsed(e, q) && toks[q] != Token.RightParen
    ensures ParseAtom(toks, pos) == Panicked("Expected ')' after expression.")
    ensures ParseExpression(toks, pos) == Panicked("Expected ')' after expression.")
    ensures ParseFrom(toks, pos) == Aborted("Expected ')' after expression.")
  {
    var message := "Expected ')' after expression.";
    assert ParseAtom(toks, pos) == Panicked(message);
    assert ParseLevel(1, toks, pos) == Panicked(message);
    FailureRises(7, toks, pos);
    assert Parsing.ExpressionStatement(toks, pos) == Panicked(message);
  }
}
