/** The recursive-descent parser of src/parser.rs.

    The parser's only state is a cursor into the token vector, so every
    parsing function here takes the vector and the cursor and returns where
    the cursor ends up. `anyhow` errors (which leave the cursor where the
    failure was found) become `Failed`; the `panic!` in `consume` becomes
    `Panicked`, which aborts the whole parse. */
module Parsing {
  import opened Results
  import opened Tokens
  import opened Ast

  /** A token vector as the lexer hands it over: it ends in `Eof`. */
  predicate WellFormed(toks: seq<Token>) {
    |toks| > 0 && toks[|toks| - 1] == Token.Eof
  }

  /** A cursor inside a well-formed token vector. */
  predicate Valid(toks: seq<Token>, pos: nat) {
    WellFormed(toks) && pos < |toks|
  }

  // ---------------------------------------------------------------------------
  // cursor helpers

  /** `peek`: the token under the cursor. */
  function Peek(toks: seq<Token>, pos: nat): (t: Token)
    requires pos < |toks|
    ensures t in toks
    ensures WellFormed(toks) && pos == |toks| - 1 ==> t == Token.Eof
  {
    toks[pos]
  }

  /** `done`: the cursor is on `Eof`. */
  function Done(toks: seq<Token>, pos: nat): (b: bool)
    requires pos < |toks|
    ensures b <==> toks[pos] == Token.Eof
    ensures WellFormed(toks) && pos == |toks| - 1 ==> b
  {
    Peek(toks, pos) == Token.Eof
  }

  /** `expect`: the cursor is on `t`, and not at the end. */
  function Expect(toks: seq<Token>, pos: nat, t: Token): (b: bool)
    requires pos < |toks|
    ensures b <==> t != Token.Eof && toks[pos] == t
    ensures t == Token.Eof ==> !b
  {
    !Done(toks, pos) && Peek(toks, pos) == t
  }

  /** `advance`: step past the current token unless it is `Eof`. The cursor
      therefore never leaves the vector. */
  function Advance(toks: seq<Token>, pos: nat): (next: nat)
    requires Valid(toks, pos)
    ensures next < |toks|
    ensures Done(toks, pos) ==> next == pos
    ensures !Done(toks, pos) ==> next == pos + 1
  {
    if !Done(toks, pos) then pos + 1 else pos
  }

  /** `previous`: the token just before the cursor. */
  function Previous(toks: seq<Token>, pos: nat): (t: Token)
    requires 0 < pos <= |toks|
    ensures t in toks
    ensures pos < |toks| ==> t == Peek(toks, pos - 1)
  {
    toks[pos - 1]
  }

  /** After stepping past a token that is not `Eof`, `previous` is that token. */
  lemma PreviousAfterAdvance(toks: seq<Token>, pos: nat)
    requires Valid(toks, pos) && !Done(toks, pos)
    ensures 0 < Advance(toks, pos) && Previous(toks, Advance(toks, pos)) == Peek(toks, pos)
  {
  }

  /** The outcome of one parsing function: a value and the cursor after it,
      a recoverable error and the cursor where it was found, or a panic. */
  datatype Step<+T> =
    | Parsed(value: T, next: nat)
    | Failed(message: string, at: nat)
    | Panicked(message: string)

  /** `consume`: step past `t`, or panic with `message`. */
  function Consume(toks: seq<Token>, pos: nat, t: Token, message: string): (r: Step<Token>)
    requires Valid(toks, pos)
    ensures r.Parsed? <==> Expect(toks, pos, t)
    ensures r.Parsed? ==> r.value == t && r.next == pos + 1
    ensures !r.Parsed? ==> r == Panicked(message)
  {
    if Expect(toks, pos, t) then
      var next := Advance(toks, pos);
      Parsed(Previous(toks, next), next)
    else
      Panicked(message)
  }

  // ---------------------------------------------------------------------------
  // expressions

  /** The level whose loop consumes `tok`: 7 for `or`, 6 for `and`, 5 for
      `equality`, 4 for `comparison`, 3 for `term` and 2 for `factor`; 0 for
      a token no loop consumes. */
  function OperatorRank(tok: Token): nat {
    match tok
    case Or => 7
    case And => 6
    case DoubleEqual => 5
    case BangEqual => 5
    case Greater => 4
    case GreaterEqual => 4
    case Less => 4
    case LessEqual => 4
    case Plus => 3
    case Minus => 3
    case Times => 2
    case Divide => 2
    case _ => 0
  }

  /** The trees this grammar can build: literal leaves, a prefix `-` or `!`
      on an operand, and binary nodes whose operator belongs to some tier. */
  predicate Parseable(e: Expression) {
    match e
    case Integer(_) => true
    case Float(_) => true
    case String(_) => true
    case Boolean(_) => true
    case Prefix(op, a) => (op == Token.Minus || op == Token.Bang) && Parseable(a)
    case Infix(l, op, r) => OperatorRank(op) >= 2 && Parseable(l) && Parseable(r)
    case _ => false
  }

  /** The statements this parser builds: an expression statement or a print
      statement around a tree the grammar can build. */
  predicate ParsedStatement(s: Statement) {
    (s.ExpressionStatement? || s.Print?) && Parseable(s.expr)
  }

  /** A program this parser builds: every statement is one it builds. */
  predicate ParsedProgram(ss: seq<Statement>) {
    forall i | 0 <= i < |ss| :: ParsedStatement(ss[i])
  }

  /** Where a parsing function may leave the cursor: a success consumed at
      least one token, and a failure lies at or after the start. */
  predicate Advances<T>(r: Step<T>, pos: nat, n: nat) {
    && (r.Parsed? ==> pos < r.next < n)
    && (r.Failed? ==> pos <= r.at < n)
  }

  /** `expression`: the loosest level, `or`. */
  function ParseExpression(toks: seq<Token>, pos: nat): (r: Step<Expression>)
    requires Valid(toks, pos)
    ensures Advances(r, pos, |toks|)
    ensures r.Parsed? ==> Parseable(r.value)
    decreases |toks| - pos, 8, 0
  {
    ParseLevel(7, toks, pos)
  }

  /** The ladder of parsing functions, one level per function: 7 `or`,
      6 `and`, 5 `equality`, 4 `comparison`, 3 `term`, 2 `factor`, 1
      `prefix` and 0 `atom`. Each binary level parses one operand with the
      level below it and then folds its own operators. */
  function ParseLevel(k: nat, toks: seq<Token>, pos: nat): (r: Step<Expression>)
    requires Valid(toks, pos) && k <= 7
    ensures Advances(r, pos, |toks|)
    ensures r.Parsed? ==> Parseable(r.value)
    decreases |toks| - pos, k, 1
  {
    if k == 0 then ParseAtom(toks, pos)
    else if k == 1 then ParsePrefix(toks, pos)
    else
      match ParseLevel(k - 1, toks, pos)
      case Parsed(e, p) => FoldTier(k, toks, p, e)
      case Failed(m, at) => Failed(m, at)
      case Panicked(m) => Panicked(m)
  }

  /** The loop of binary level `k`: while the cursor is on one of the level's
      operators, consume it, parse the right operand with the level below,
      and make the tree so far the left child of a new `Infix` node. */
  function FoldTier(k: nat, toks: seq<Token>, pos: nat, acc: Expression): (r: Step<Expression>)
    requires 2 <= k <= 7 && Valid(toks, pos) && Parseable(acc)
    ensures r.Parsed? ==> pos <= r.next < |toks| && Parseable(r.value)
    ensures r.Failed? ==> pos <= r.at < |toks|
    decreases |toks| - pos, 0, 0
  {
    if !Done(toks, pos) && OperatorRank(Peek(toks, pos)) == k then
      var next := Advance(toks, pos);
      var op := Previous(toks, next);
      match ParseLevel(k - 1, toks, next)
      case Parsed(e, p) => FoldTier(k, toks, p, Expression.Infix(acc, op, e))
      case Failed(m, at) => Failed(m, at)
      case Panicked(m) => Panicked(m)
    else
      Parsed(acc, pos)
  }

  /** `prefix`: a `-` or `!` applies to an atom only. */
  function ParsePrefix(toks: seq<Token>, pos: nat): (r: Step<Expression>)
    requires Valid(toks, pos)
    ensures Advances(r, pos, |toks|)
    ensures r.Parsed? ==> Parseable(r.value)
    decreases |toks| - pos, 1, 0
  {
    if Expect(toks, pos, Token.Minus) || Expect(toks, pos, Token.Bang) then
      var next := Advance(toks, pos);
      var op := Previous(toks, next);
      match ParseAtom(toks, next)
      case Parsed(e, p) => Parsed(Expression.Prefix(op, e), p)
      case Failed(m, at) => Failed(m, at)
      case Panicked(m) => Panicked(m)
    else
      ParseAtom(toks, pos)
  }

  /** `atom`: a literal, or a parenthesised expression, which yields the inner
      expression itself. */
  function ParseAtom(toks: seq<Token>, pos: nat): (r: Step<Expression>)
    requires Valid(toks, pos)
    ensures Advances(r, pos, |toks|)
    ensures r.Parsed? ==> Parseable(r.value)
    decreases |toks| - pos, 0, 0
  {
    var tok := Peek(toks, pos);
    if tok.Integer? then Parsed(Expression.Integer(tok.i), Advance(toks, pos))
    else if tok.Float? then Parsed(Expression.Float(tok.f), Advance(toks, pos))
    else if tok.String? then Parsed(Expression.String(tok.s), Advance(toks, pos))
    else if tok.Bool? then Parsed(Expression.Boolean(tok.b), Advance(toks, pos))
    else if tok == Token.LeftParen then
      match ParseExpression(toks, Advance(toks, pos))
      case Parsed(e, p) =>
        var close := Consume(toks, p, Token.RightParen, "Expected ')' after expression.");
        if close.Parsed? then Parsed(e, close.next) else Panicked(close.message)
      case Failed(m, at) => Failed(m, at)
      case Panicked(m) => Panicked(m)
    else
      Failed("Expected expression", pos)
  }

  // ---------------------------------------------------------------------------
  // statements

  /** `statement`: a print statement or an expression statement. */
  function ParseStatement(toks: seq<Token>, pos: nat): (r: Step<Statement>)
    requires Valid(toks, pos)
    ensures Advances(r, pos, |toks|)
    ensures r.Parsed? ==> ParsedStatement(r.value)
  {
    if Expect(toks, pos, Token.Print) then PrintStatement(toks, pos) else ExpressionStatement(toks, pos)
  }

  /** `print_statement`: skip `print`, parse an expression, require `;`. */
  function PrintStatement(toks: seq<Token>, pos: nat): (r: Step<Statement>)
    requires Valid(toks, pos)
    ensures Advances(r, pos, |toks|)
    ensures r.Parsed? ==> r.value.Print? && Parseable(r.value.expr)
  {
    match ParseExpression(toks, Advance(toks, pos))
    case Parsed(e, p) =>
      var semi := Consume(toks, p, Token.SemiColon, "Expected ; after print");
      if semi.Parsed? then Parsed(Statement.Print(e), semi.next) else Panicked(semi.message)
    case Failed(m, at) => Failed(m, at)
    case Panicked(m) => Panicked(m)
  }

  /** `expression_statement`: parse an expression, require `;`. */
  function ExpressionStatement(toks: seq<Token>, pos: nat): (r: Step<Statement>)
    requires Valid(toks, pos)
    ensures Advances(r, pos, |toks|)
    ensures r.Parsed? ==> r.value.ExpressionStatement? && Parseable(r.value.expr)
  {
    match ParseExpression(toks, pos)
    case Parsed(e, p) =>
      var semi := Consume(toks, p, Token.SemiColon, "Expected ';' after expression.");
      if semi.Parsed? then Parsed(Statement.ExpressionStatement(e), semi.next) else Panicked(semi.message)
    case Failed(m, at) => Failed(m, at)
    case Panicked(m) => Panicked(m)
  }

  /** `declaration`: a statement, or `None` when it failed. The cursor stays
      wherever the failure left it. */
  function Declaration(toks: seq<Token>, pos: nat): (r: Step<Option<Statement>>)
    requires Valid(toks, pos)
    ensures !r.Failed?
    ensures r.Parsed? ==> pos <= r.next < |toks|
    ensures r.Parsed? && r.value.Some? ==> pos < r.next
    ensures r.Parsed? && r.value.Some? ==> ParsedStatement(r.value.value)
    ensures r.Panicked? <==> ParseStatement(toks, pos).Panicked?
    ensures ParseStatement(toks, pos).Failed? ==> r == Parsed(None, ParseStatement(toks, pos).at)
  {
    match ParseStatement(toks, pos)
    case Parsed(s, p) => Parsed(Some(s), p)
    case Failed(_, at) => Parsed(None, at)
    case Panicked(m) => Panicked(m)
  }

  /** What `parse` does with a token vector: return the statements, panic, or
      loop forever without moving the cursor. */
  datatype ParseOutcome =
    | Program(stmts: seq<Statement>)
    | Aborted(message: string)
    | Stuck(at: nat)

  /** `parse`: read declarations until the cursor is on `Eof`. */
  function Parse(toks: seq<Token>): (r: ParseOutcome)
    requires WellFormed(toks)
    ensures r.Program? ==> ParsedProgram(r.stmts)
  {
    ParseFrom(toks, 0)
  }

  /** The loop of `parse` from cursor `pos`. A failed statement is dropped.
      When a failed statement leaves the cursor where it started, the next
      turn starts from the same state and so repeats forever; that is
      reported as `Stuck`. */
  function ParseFrom(toks: seq<Token>, pos: nat): (r: ParseOutcome)
    requires Valid(toks, pos)
    ensures r.Program? ==> ParsedProgram(r.stmts)
    ensures r.Stuck? ==> pos <= r.at < |toks| && !Done(toks, r.at) && Declaration(toks, r.at) == Parsed(None, r.at)
    decreases |toks| - pos
  {
    match Declaration(toks, pos)
    case Panicked(m) => Aborted(m)
    case Parsed(s, p) =>
      var found := if s.Some? then [s.value] else [];
      if Done(toks, p) then Program(found)
      else if p == pos then Stuck(pos)
      else
        match ParseFrom(toks, p)
        case Program(rest) => Program(found + rest)
        case other => other
  }
}
