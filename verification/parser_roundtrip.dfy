/** A printer from expression trees back to tokens, inserting parentheses
    only where the grammar needs them, and the proof that the parser reads
    its output back: every tree the grammar can build is recovered exactly,
    with each operator at its tier and each chain of one tier's operators
    grouped to the left. */
module ParserRoundTrip {
  import opened Results
  import opened Tokens
  import opened Ast
  import opened Parsing

  /** How loosely an expression binds: 0 for a literal, 1 for a prefix
      expression, and its operator's tier rank for a binary one. */
  function Level(e: Expression): (n: nat)
    requires Parseable(e)
    ensures n <= 7
  {
    match e
    case Prefix(_, _) => 1
    case Infix(_, op, _) => OperatorRank(op)
    case _ => 0
  }

  /** A token that can begin an operand. */
  predicate StartsOperand(t: Token) {
    t.Integer? || t.Float? || t.String? || t.Bool? || t == Token.LeftParen || t == Token.Minus || t == Token.Bang
  }

  /** The tokens of `e` where the grammar expects an operand of level `k`:
      parenthesised when `e` binds more loosely than that. */
  function Emit(e: Expression, k: nat): (ts: seq<Token>)
    requires Parseable(e)
    ensures |ts| > 0
    decreases e, 1
  {
    if Level(e) > k then [Token.LeftParen] + Bare(e) + [Token.RightParen] else Bare(e)
  }

  /** The tokens of `e` without parentheses around it: a binary node's left
      operand may sit at its own level, its right operand only one tighter. */
  function Bare(e: Expression): (ts: seq<Token>)
    requires Parseable(e)
    ensures |ts| > 0
    decreases e, 0
  {
    match e
    case Integer(i) => [Token.Integer(i)]
    case Float(f) => [Token.Float(f)]
    case String(s) => [Token.String(s)]
    case Boolean(b) => [Token.Bool(b)]
    case Prefix(op, a) => [op] + Emit(a, 0)
    case Infix(l, op, r) => Emit(l, OperatorRank(op)) + [op] + Emit(r, OperatorRank(op) - 1)
    case _ => []
  }

  /** The printed form of an expression starts with a token that can begin
      an operand; where an atom is expected, that token is not a prefix
      operator unless the expression is a prefix expression. */
  lemma {:induction false} EmitStart(e: Expression, k: nat)
    requires Parseable(e)
    ensures StartsOperand(Emit(e, k)[0])
    ensures k <= 1 && !e.Prefix? ==> Emit(e, k)[0] != Token.Minus && Emit(e, k)[0] != Token.Bang
    decreases e, 1
  {
    if Level(e) <= k {
      BareStart(e);
    }
  }

  /** The first token of an unparenthesised expression. */
  lemma {:induction false} BareStart(e: Expression)
    requires Parseable(e)
    ensures StartsOperand(Bare(e)[0])
    ensures Level(e) == 0 ==> Bare(e)[0] != Token.Minus && Bare(e)[0] != Token.Bang
    decreases e, 0
  {
    if e.Infix? {
      EmitStart(e.left, OperatorRank(e.op));
      assert Bare(e)[0] == Emit(e.left, OperatorRank(e.op))[0];
    }
  }

  /** What a level-`k` parse still does once it holds `e` and the cursor is
      at `p`: a binary tier keeps folding its own operators. */
  function Continue(k: nat, toks: seq<Token>, p: nat, e: Expression): Step<Expression>
    requires Valid(toks, p) && Parseable(e) && k <= 7
  {
    if k >= 2 then FoldTier(k, toks, p, e) else Parsed(e, p)
  }

  /** A token that ends an operand of level `k`: it is no operator of a tier
      at or below `k`. */
  predicate Stops(k: nat, t: Token) {
    OperatorRank(t) == 0 || OperatorRank(t) > k
  }

  /** A binary level folds whatever the level below it parsed. */
  lemma LevelStep(k: nat, toks: seq<Token>, pos: nat)
    requires 2 <= k <= 7 && Valid(toks, pos)
    requires ParseLevel(k - 1, toks, pos).Parsed?
    ensures ParseLevel(k, toks, pos)
         == FoldTier(k, toks, ParseLevel(k - 1, toks, pos).next, ParseLevel(k - 1, toks, pos).value)
  {
  }

  /** A fold stops at a token that is not one of its tier's operators. */
  lemma StopFold(k: nat, toks: seq<Token>, p: nat, e: Expression)
    requires Valid(toks, p) && Parseable(e) && k <= 7
    requires Stops(k, toks[p])
    ensures Continue(k, toks, p, e) == Parsed(e, p)
  {
  }

  /** An operand parsed below the level asked for is carried up unchanged
      through the tier that was asked for, when the next token stops it. */
  lemma Descend(k: nat, toks: seq<Token>, pos: nat, p: nat, e: Expression)
    requires 2 <= k <= 7 && Valid(toks, pos) && Valid(toks, p) && Parseable(e)
    requires ParseLevel(k - 1, toks, pos) == Continue(k - 1, toks, p, e)
    requires Stops(k - 1, toks[p])
    ensures ParseLevel(k, toks, pos) == Continue(k, toks, p, e)
  {
    StopFold(k - 1, toks, p, e);
    LevelStep(k, toks, pos);
  }

  /** One turn of a tier's fold: its operator, then a right operand parsed
      one tier tighter, joined to the tree so far. */
  lemma FoldOnce(k: nat, toks: seq<Token>, p: nat, acc: Expression, r: Expression, q: nat)
    requires 2 <= k <= 7 && Valid(toks, p) && Parseable(acc) && Parseable(r)
    requires OperatorRank(toks[p]) == k && p + 1 < |toks|
    requires ParseLevel(k - 1, toks, p + 1) == Parsed(r, q)
    ensures Valid(toks, q)
    ensures FoldTier(k, toks, p, acc) == FoldTier(k, toks, q, Expression.Infix(acc, toks[p], r))
  {
  }

  /** A parenthesised expression is an atom, and the parentheses leave no
      node of their own. */
  lemma ParenAtom(toks: seq<Token>, pos: nat, e: Expression, q: nat)
    requires Valid(toks, pos) && toks[pos] == Token.LeftParen && pos + 1 < |toks|
    requires ParseLevel(7, toks, pos + 1) == Parsed(e, q)
    requires q + 1 < |toks| && toks[q] == Token.RightParen
    ensures ParseAtom(toks, pos) == Parsed(e, q + 1)
  {
  }

  /** The binary case: the left operand at the node's own level, the
      operator, and the right operand one level tighter fold into the node. */
  lemma InfixStep(k: nat, toks: seq<Token>, pos: nat, e: Expression, mid: nat, end: nat)
    requires 2 <= k <= 7 && Parseable(e) && e.Infix? && OperatorRank(e.op) == k
    requires Valid(toks, pos) && mid < end < |toks|
    requires toks[mid] == e.op && Stops(k - 1, toks[end])
    requires ParseLevel(k, toks, pos) == Continue(k, toks, mid, e.left)
    requires ParseLevel(k - 1, toks, mid + 1) == Continue(k - 1, toks, end, e.right)
    ensures ParseLevel(k, toks, pos) == Continue(k, toks, end, e)
  {
    StopFold(k - 1, toks, end, e.right);
    FoldOnce(k, toks, mid, e.left, e.right, end);
  }

  /** The prefix case: `-` or `!` followed by an atom. */
  lemma PrefixStep(toks: seq<Token>, pos: nat, e: Expression, end: nat)
    requires Valid(toks, pos) && Valid(toks, end) && pos + 1 < |toks|
    requires Parseable(e) && e.Prefix? && toks[pos] == e.op
    requires ParseLevel(0, toks, pos + 1) == Continue(0, toks, end, e.operand)
    ensures ParseLevel(1, toks, pos) == Continue(1, toks, end, e)
  {
    assert Advance(toks, pos) == pos + 1 && Previous(toks, pos + 1) == e.op;
    assert ParseLevel(0, toks, pos + 1) == ParseAtom(toks, pos + 1);
  }

  /** Below the prefix tier, an operand that does not start with `-` or `!`
      is an atom. */
  lemma AtomStep(toks: seq<Token>, pos: nat, e: Expression, end: nat)
    requires Valid(toks, pos) && Valid(toks, end) && Parseable(e)
    requires toks[pos] != Token.Minus && toks[pos] != Token.Bang
    requires ParseLevel(0, toks, pos) == Continue(0, toks, end, e)
    ensures ParseLevel(1, toks, pos) == Continue(1, toks, end, e)
  {
  }

  /** A literal is an atom of one token. */
  lemma LiteralStep(toks: seq<Token>, pos: nat, e: Expression)
    requires Valid(toks, pos) && pos + 1 < |toks| && Parseable(e) && Level(e) == 0
    requires toks[pos] == Bare(e)[0]
    ensures ParseLevel(0, toks, pos) == Continue(0, toks, pos + 1, e)
  {
  }

  /** The parenthesised case at the atom level. */
  lemma ParenStep(toks: seq<Token>, pos: nat, e: Expression, end: nat)
    requires Valid(toks, pos) && Parseable(e) && pos + 1 < |toks| && 0 < end < |toks| - 1
    requires toks[pos] == Token.LeftParen && toks[end] == Token.RightParen
    requires ParseLevel(7, toks, pos + 1) == Continue(7, toks, end, e)
    ensures ParseLevel(0, toks, pos) == Continue(0, toks, end + 1, e)
  {
    StopFold(7, toks, end, e);
    ParenAtom(toks, pos, e, end);
  }

  // ---------------------------------------------------------------------------
  // token layout

  /** The tokens `ts` stand in `toks` from cursor `a` on. */
  predicate Laid(toks: seq<Token>, a: nat, ts: seq<Token>) {
    a + |ts| <= |toks| && forall i | 0 <= i < |ts| :: toks[a + i] == ts[i]
  }

  /** Two runs of tokens stand side by side exactly when their concatenation
      stands there. */
  lemma LaidAppend(toks: seq<Token>, a: nat, x: seq<Token>, y: seq<Token>)
    ensures Laid(toks, a, x + y) <==> Laid(toks, a, x) && Laid(toks, a + |x|, y)
  {
    if Laid(toks, a, x + y) {
      forall i | 0 <= i < |x| ensures toks[a + i] == x[i] {
        assert (x + y)[i] == x[i];
      }
      forall j | 0 <= j < |y| ensures toks[a + |x| + j] == y[j] {
        assert (x + y)[|x| + j] == y[j];
      }
    }
    if Laid(toks, a, x) && Laid(toks, a + |x|, y) {
      forall i | 0 <= i < |x + y| ensures toks[a + i] == (x + y)[i] {
        if i >= |x| {
          assert toks[a + |x| + (i - |x|)] == y[i - |x|];
        }
      }
    }
  }

  /** A sequence begins with its own front part. */
  lemma LaidFront(x: seq<Token>, y: seq<Token>)
    ensures Laid(x + y, 0, x)
  {
    forall i | 0 <= i < |x| ensures (x + y)[0 + i] == x[i] {
    }
  }

  /** The front and the back of a run stand where the run stands. */
  lemma LaidSplit(toks: seq<Token>, a: nat, x: seq<Token>, y: seq<Token>)
    requires Laid(toks, a, x + y)
    ensures Laid(toks, a, x) && Laid(toks, a + |x|, y)
  {
    LaidAppend(toks, a, x, y);
  }

  /** A run that starts with a single token. */
  lemma LaidCons(toks: seq<Token>, a: nat, o: Token, m: seq<Token>)
    requires Laid(toks, a, [o] + m)
    ensures a < |toks| && toks[a] == o && Laid(toks, a + 1, m)
  {
    LaidSplit(toks, a, [o], m);
    assert toks[a + 0] == [o][0];
  }

  /** A run that ends with a single token. */
  lemma LaidLast(toks: seq<Token>, a: nat, m: seq<Token>, c: Token)
    requires Laid(toks, a, m + [c])
    ensures Laid(toks, a, m) && a + |m| < |toks| && toks[a + |m|] == c
  {
    LaidSplit(toks, a, m, [c]);
    assert toks[a + |m| + 0] == [c][0];
  }

  /** A single token in the middle of a run. */
  lemma LaidAround(toks: seq<Token>, a: nat, x: seq<Token>, o: Token, y: seq<Token>)
    requires Laid(toks, a, x + [o] + y)
    ensures Laid(toks, a, x) && a + |x| < |toks| && toks[a + |x|] == o && Laid(toks, a + |x| + 1, y)
  {
    LaidSplit(toks, a, x + [o], y);
    LaidSplit(toks, a, x, [o]);
    assert toks[a + |x| + 0] == [o][0];
  }

  /** A run between two single tokens. */
  lemma LaidBetween(toks: seq<Token>, a: nat, o: Token, m: seq<Token>, c: Token)
    requires Laid(toks, a, [o] + m + [c])
    ensures a < |toks| && toks[a] == o && Laid(toks, a + 1, m)
    ensures a + 1 + |m| < |toks| && toks[a + 1 + |m|] == c
  {
    LaidSplit(toks, a, [o] + m, [c]);
    LaidCons(toks, a, o, m);
    assert toks[a + |[o] + m| + 0] == [c][0];
  }

  /** The tokens of a binary node of tier `k`. */
  lemma EmitInfix(e: Expression, k: nat)
    requires Parseable(e) && e.Infix? && Level(e) == k
    ensures Parseable(e.left) && Parseable(e.right) && OperatorRank(e.op) == k
    ensures Emit(e, k) == Emit(e.left, k) + [e.op] + Emit(e.right, k - 1)
    ensures |Emit(e, k)| == |Emit(e.left, k)| + 1 + |Emit(e.right, k - 1)|
  {
  }

  /** The tokens of a prefix expression. */
  lemma EmitPrefix(e: Expression)
    requires Parseable(e) && e.Prefix?
    ensures Parseable(e.operand) && (e.op == Token.Minus || e.op == Token.Bang)
    ensures Emit(e, 1) == [e.op] + Emit(e.operand, 0)
    ensures |Emit(e, 1)| == 1 + |Emit(e.operand, 0)|
  {
  }

  /** A compound expression where an atom is expected is the loosest form of
      it in parentheses. */
  lemma EmitParen(e: Expression)
    requires Parseable(e) && Level(e) > 0
    ensures Emit(e, 0) == [Token.LeftParen] + Emit(e, 7) + [Token.RightParen]
    ensures |Emit(e, 0)| == 1 + |Emit(e, 7)| + 1
  {
  }

  /** An expression not of tier `k` prints the same way one level down. */
  lemma EmitDescends(e: Expression, k: nat)
    requires Parseable(e) && 1 <= k <= 7 && Level(e) != k
    ensures Emit(e, k) == Emit(e, k - 1)
  {
  }

  // ---------------------------------------------------------------------------
  // the round trip

  /** `e` printed for level `k` stands in `toks` at `a`, and the token after
      it stops every tier tighter than `k`. */
  predicate Placed(e: Expression, k: nat, toks: seq<Token>, a: nat) {
    && Parseable(e) && k <= 7 && WellFormed(toks)
    && Laid(toks, a, Emit(e, k)) && a + |Emit(e, k)| < |toks|
    && (k == 0 || Stops(k - 1, toks[a + |Emit(e, k)|]))
  }

  /** Parsing the tokens of `e` at level `k` gives `e` back, with the cursor
      just past them, as long as the token after them stops every tier
      tighter than `k`; whether it also stops tier `k` decides whether that
      tier's fold goes on. */
  lemma {:induction false} EmitParses(e: Expression, k: nat, toks: seq<Token>, a: nat) returns (end: nat)
    requires Placed(e, k, toks, a)
    ensures end == a + |Emit(e, k)|
    ensures ParseLevel(k, toks, a) == Continue(k, toks, end, e)
    decreases e, if Level(e) > k then 1 else 0, k, 1
  {
    if k >= 2 && Level(e) != k {
      end := DescendCase(e, k, toks, a);
    } else if k >= 2 {
      end := InfixCase(e, k, toks, a);
    } else if k == 1 && e.Prefix? {
      end := PrefixCase(e, toks, a);
    } else if k == 1 {
      end := AtomCase(e, toks, a);
    } else if Level(e) > 0 {
      end := ParenCase(e, toks, a);
    } else {
      end := LiteralCase(e, toks, a);
    }
  }

  /** A literal is its own single token. */
  lemma LiteralCase(e: Expression, toks: seq<Token>, a: nat) returns (end: nat)
    requires Placed(e, 0, toks, a) && Level(e) == 0
    ensures end == a + |Emit(e, 0)|
    ensures ParseLevel(0, toks, a) == Continue(0, toks, end, e)
  {
    assert Emit(e, 0) == Bare(e) && |Bare(e)| == 1;
    LiteralStep(toks, a, e);
    end := a + 1;
  }

  /** Where the tokens of `e` stand one level down, when `e` is not of
      tier `k`. */
  lemma DescendLayout(e: Expression, k: nat, toks: seq<Token>, a: nat)
    requires Placed(e, k, toks, a) && k >= 2 && Level(e) != k
    ensures Placed(e, k - 1, toks, a) && |Emit(e, k - 1)| == |Emit(e, k)|
    ensures Stops(k - 1, toks[a + |Emit(e, k)|])
  {
    EmitDescends(e, k);
  }

  /** `e` sits below tier `k`: it is parsed one level down and carried up. */
  lemma {:induction false} DescendCase(e: Expression, k: nat, toks: seq<Token>, a: nat) returns (end: nat)
    requires Placed(e, k, toks, a) && k >= 2 && Level(e) != k
    ensures end == a + |Emit(e, k)|
    ensures ParseLevel(k, toks, a) == Continue(k, toks, end, e)
    decreases e, if Level(e) > k then 1 else 0, k, 0
  {
    DescendLayout(e, k, toks, a);
    end := EmitParses(e, k - 1, toks, a);
    Descend(k, toks, a, end, e);
  }

  /** Where the operands and the operator of a binary node stand. */
  lemma InfixLayout(e: Expression, k: nat, toks: seq<Token>, a: nat) returns (mid: nat, end: nat)
    requires Placed(e, k, toks, a) && k >= 2 && Level(e) == k
    ensures e.Infix? && OperatorRank(e.op) == k
    ensures mid == a + |Emit(e.left, k)| && end == a + |Emit(e, k)|
    ensures end == mid + 1 + |Emit(e.right, k - 1)|
    ensures Placed(e.left, k, toks, a) && Placed(e.right, k - 1, toks, mid + 1)
    ensures toks[mid] == e.op && Stops(k - 1, toks[end])
  {
    EmitInfix(e, k);
    LaidAround(toks, a, Emit(e.left, k), e.op, Emit(e.right, k - 1));
    mid, end := a + |Emit(e.left, k)|, a + |Emit(e, k)|;
  }

  /** `e` is a binary node of tier `k`. */
  lemma {:induction false} InfixCase(e: Expression, k: nat, toks: seq<Token>, a: nat) returns (end: nat)
    requires Placed(e, k, toks, a) && k >= 2 && Level(e) == k
    ensures end == a + |Emit(e, k)|
    ensures ParseLevel(k, toks, a) == Continue(k, toks, end, e)
    decreases e, 0, k, 0
  {
    var mid, last := InfixLayout(e, k, toks, a);
    var _ := EmitParses(e.left, k, toks, a);
    end := EmitParses(e.right, k - 1, toks, mid + 1);
    InfixStep(k, toks, a, e, mid, end);
  }

  /** Where the operator and the operand of a prefix expression stand. */
  lemma PrefixLayout(e: Expression, toks: seq<Token>, a: nat)
    requires Placed(e, 1, toks, a) && e.Prefix?
    ensures e.op == Token.Minus || e.op == Token.Bang
    ensures toks[a] == e.op && Placed(e.operand, 0, toks, a + 1)
    ensures a + |Emit(e, 1)| == a + 1 + |Emit(e.operand, 0)|
  {
    EmitPrefix(e);
    LaidCons(toks, a, e.op, Emit(e.operand, 0));
  }

  /** `e` is a prefix expression at the prefix tier. */
  lemma {:induction false} PrefixCase(e: Expression, toks: seq<Token>, a: nat) returns (end: nat)
    requires Placed(e, 1, toks, a) && e.Prefix?
    ensures end == a + |Emit(e, 1)|
    ensures ParseLevel(1, toks, a) == Continue(1, toks, end, e)
    decreases e, 0, 1, 0
  {
    PrefixLayout(e, toks, a);
    end := EmitParses(e.operand, 0, toks, a + 1);
    PrefixStep(toks, a, e, end);
  }

  /** Where an operand that is no prefix expression stands at the atom level. */
  lemma AtomLayout(e: Expression, toks: seq<Token>, a: nat)
    requires Placed(e, 1, toks, a) && !e.Prefix?
    ensures Placed(e, 0, toks, a) && |Emit(e, 0)| == |Emit(e, 1)|
    ensures toks[a] != Token.Minus && toks[a] != Token.Bang
  {
    EmitDescends(e, 1);
    EmitStart(e, 1);
  }

  /** Any other operand at the prefix tier is an atom. */
  lemma {:induction false} AtomCase(e: Expression, toks: seq<Token>, a: nat) returns (end: nat)
    requires Placed(e, 1, toks, a) && !e.Prefix?
    ensures end == a + |Emit(e, 1)|
    ensures ParseLevel(1, toks, a) == Continue(1, toks, end, e)
    decreases e, if Level(e) > 1 then 1 else 0, 1, 0
  {
    AtomLayout(e, toks, a);
    end := EmitParses(e, 0, toks, a);
    AtomStep(toks, a, e, end);
  }

  /** Where a parenthesised expression and its parentheses stand. */
  lemma ParenLayout(e: Expression, toks: seq<Token>, a: nat)
    requires Placed(e, 0, toks, a) && Level(e) > 0
    ensures toks[a] == Token.LeftParen && Placed(e, 7, toks, a + 1)
    ensures toks[a + 1 + |Emit(e, 7)|] == Token.RightParen
    ensures a + |Emit(e, 0)| == a + 1 + |Emit(e, 7)| + 1
  {
    EmitParen(e);
    LaidBetween(toks, a, Token.LeftParen, Emit(e, 7), Token.RightParen);
  }

  /** A compound `e` where an atom is expected is parenthesised. */
  lemma {:induction false} ParenCase(e: Expression, toks: seq<Token>, a: nat) returns (end: nat)
    requires Placed(e, 0, toks, a) && Level(e) > 0
    ensures end == a + |Emit(e, 0)|
    ensures ParseLevel(0, toks, a) == Continue(0, toks, end, e)
    decreases e, 1, 0, 0
  {
    ParenLayout(e, toks, a);
    var last := EmitParses(e, 7, toks, a + 1);
    ParenStep(toks, a, e, last);
    end := last + 1;
  }

  /** The whole-expression parser is the loosest tier. */
  lemma TopStep(toks: seq<Token>, pos: nat, e: Expression, end: nat)
    requires Valid(toks, pos) && Valid(toks, end) && Parseable(e)
    requires ParseLevel(7, toks, pos) == Continue(7, toks, end, e)
    requires OperatorRank(toks[end]) == 0
    ensures ParseExpression(toks, pos) == Parsed(e, end)
  {
    StopFold(7, toks, end, e);
  }

  /** The expression parser reads back the tokens of any tree the grammar can
      build, when what follows is not a binary operator. */
  lemma ExpressionRoundTrip(e: Expression, toks: seq<Token>, a: nat)
    requires Parseable(e) && WellFormed(toks)
    requires Laid(toks, a, Emit(e, 7)) && a + |Emit(e, 7)| < |toks|
    requires OperatorRank(toks[a + |Emit(e, 7)|]) == 0
    ensures Valid(toks, a)
    ensures ParseExpression(toks, a) == Parsed(e, a + |Emit(e, 7)|)
  {
    var end := EmitParses(e, 7, toks, a);
    TopStep(toks, a, e, end);
  }
}
