/** Properties of the scanner in src/lexer.rs: the shape of the token stream,
    the literals it recognises, and the positions and lines it reports. */
module LexerProperties {
  import opened Results
  import opened Tokens
  import opened Lexing

  // ---------------------------------------------------------------------------
  // strip_whitespace is an order-preserving filter

  /** Stripping distributes over concatenation, so the surviving tokens keep
      their relative order. */
  lemma {:induction false} StripAppend(a: seq<Token>, b: seq<Token>)
    ensures StripWhitespace(a + b) == StripWhitespace(a) + StripWhitespace(b)
    decreases |a|
  {
    if |a| == 0 {
      assert a + b == b;
    } else {
      assert (a + b)[1..] == a[1..] + b;
      StripAppend(a[1..], b);
    }
  }

  /** A token list with no blanks passes through unchanged. */
  lemma {:induction false} StripKeepsVisible(ts: seq<Token>)
    requires forall i | 0 <= i < |ts| :: !IsBlank(ts[i])
    ensures StripWhitespace(ts) == ts
    decreases |ts|
  {
    if |ts| > 0 {
      StripKeepsVisible(ts[1..]);
    }
  }

  /** Stripping keeps exactly the tokens that are not blanks. */
  lemma {:induction false} StripMembers(ts: seq<Token>)
    ensures forall t | t in StripWhitespace(ts) :: !IsBlank(t) && t in ts
    ensures forall t | t in ts && !IsBlank(t) :: t in StripWhitespace(ts)
    decreases |ts|
  {
    if |ts| > 0 {
      StripMembers(ts[1..]);
      assert ts == [ts[0]] + ts[1..];
    }
  }

  /** Stripping twice is stripping once. */
  lemma StripIdempotent(ts: seq<Token>)
    ensures StripWhitespace(StripWhitespace(ts)) == StripWhitespace(ts)
  {
    var r := StripWhitespace(ts);
    StripMembers(ts);
    forall i | 0 <= i < |r|
      ensures !IsBlank(r[i])
    {
      assert r[i] in r;
    }
    StripKeepsVisible(r);
  }

  // ---------------------------------------------------------------------------
  // the token stream ends in exactly one Eof

  /** No token but the last is `Eof`. */
  predicate EofOnlyLast(ts: seq<Token>) {
    forall i | 0 <= i < |ts| - 1 :: ts[i] != Token.Eof
  }

  /** Putting a token other than `Eof` in front keeps `Eof` last only. */
  lemma EofOnlyLastCons(t: Token, rest: seq<Token>)
    requires t != Token.Eof && EofOnlyLast(rest)
    ensures EofOnlyLast([t] + rest)
  {
    assert forall i | 1 <= i < |[t] + rest| :: ([t] + rest)[i] == rest[i - 1];
  }

  /** A token list that ends in its only `Eof` still does after stripping. */
  lemma {:induction false} StripShape(ts: seq<Token>)
    requires |ts| > 0 && ts[|ts| - 1] == Token.Eof && EofOnlyLast(ts)
    ensures var r := StripWhitespace(ts);
      |r| > 0 && r[|r| - 1] == Token.Eof && EofOnlyLast(r)
    decreases |ts|
  {
    if |ts| > 1 {
      var rest := ts[1..];
      assert forall i | 0 <= i < |rest| - 1 :: rest[i] == ts[i + 1];
      StripShape(rest);
      var r := StripWhitespace(ts);
      if !IsBlank(ts[0]) {
        assert r == [ts[0]] + StripWhitespace(rest);
        EofOnlyLastCons(ts[0], StripWhitespace(rest));
      }
    }
  }

  /** The shape of a successful `lex` result: it ends with `Eof`, holds no
      other `Eof`, and holds no `WhiteSpace` or `NewLine`. */
  predicate WellShaped(ts: seq<Token>) {
    && |ts| > 0
    && ts[|ts| - 1] == Token.Eof
    && EofOnlyLast(ts)
    && (forall i | 0 <= i < |ts| :: !IsBlank(ts[i]))
  }

  /** Whenever lexing succeeds its result is well shaped. */
  lemma LexShape(input: string)
    ensures Lex(input).Ok? ==> WellShaped(Lex(input).value)
  {
    var raw := LexLoop(New(input));
    if raw.Ok? {
      LexLoopSingleEof(New(input));
      StrippedShape(raw.value);
    }
  }

  /** What stripping makes of a raw token list that ends in its only `Eof`. */
  lemma StrippedShape(ts: seq<Token>)
    requires |ts| > 0 && ts[|ts| - 1] == Token.Eof && EofOnlyLast(ts)
    ensures WellShaped(StripWhitespace(ts))
  {
    StripShape(ts);
    StripMembers(ts);
    var r := StripWhitespace(ts);
    forall i | 0 <= i < |r|
      ensures !IsBlank(r[i])
    {
      assert r[i] in r;
    }
  }

  // ---------------------------------------------------------------------------
  // numbers

  /** A run of digits ends where the first non-digit is. */
  lemma {:induction false} RunEndOfRun(s: string, p: nat, e: nat)
    requires p <= e <= |s|
    requires AllDigits(s[p..e]) && !IsDigit(CharAt(s, e))
    ensures RunEnd(s, p) == e
    decreases e - p
  {
    if p < e {
      assert s[p..e][0] == s[p];
      assert s[p + 1..e] == s[p..e][1..];
      RunEndOfRun(s, p + 1, e);
    }
  }

  /** A digit is handed to `read_number`. */
  lemma DigitStartsNumber(l: Lexer)
    requires Scanning(l) && IsDigit(l.ch)
    ensures MatchToken(l) == ReadNumber(l)
  {
    assert l.ch != '(' && l.ch != '"' && l.ch != NUL && l.ch != '\n';
  }

  /** A maximal run of digits followed by something other than `.` is one
      `Integer` token holding the run's decimal value, and the character after
      the run is scanned next. A run too large for `i64` is an error. */
  lemma IntegerLiteral(input: string, p: nat, e: nat, line: nat)
    requires p < e < |input|
    requires AllDigits(input[p..e]) && !IsDigit(input[e]) && input[e] != '.'
    ensures var r := MatchToken(At(input, p, line));
      && (r.Ok? <==> DecimalValue(input[p..e]) <= I64_MAX)
      && (r.Ok? ==> r.value.0 == Token.Integer(DecimalValue(input[p..e])))
      && (r.Ok? ==> ReadChar(r.value.1) == At(input, e, line))
      && (r.Err? ==> r.error == IntegerOutOfRange(input[p..e]))
  {
    var l1 := At(input, e, line);
    DigitStartsNumber(At(input, p, line));
    IntegerRead(input, p, e, line);
    assert ReadChar(BackChar(l1).value) == l1;
  }

  /** `read_number` on a run of digits that does not go on with `.`. */
  lemma IntegerRead(input: string, p: nat, e: nat, line: nat)
    requires p < e < |input|
    requires AllDigits(input[p..e]) && !IsDigit(input[e]) && input[e] != '.'
    ensures var n := DecimalValue(input[p..e]);
      ReadNumber(At(input, p, line))
        == if n <= I64_MAX then Ok((Token.Integer(n), BackChar(At(input, e, line)).value))
           else Err(IntegerOutOfRange(input[p..e]))
  {
    DigitRun(input, p, e, line);
    assert BackChar(At(input, e, line)).Ok?;
  }

  /** After the point, the digits are read and the scanner steps back before
      the character that ends them; that fails when they end the input. */
  lemma FractionRead(input: string, d: nat, f: nat, line: nat, s: string)
    requires d < f <= |input| && input[d] == '.'
    requires AllDigits(input[d + 1..f]) && !IsDigit(CharAt(input, f))
    ensures var r := ReadFraction(At(input, d, line), s);
      && (r.Ok? <==> f < |input|)
      && (r.Ok? ==> r.value.0 == Token.Float(FloatLit(s + input[d..f])))
      && (r.Ok? ==> ReadChar(r.value.1) == At(input, f, line))
      && (r.Err? ==> r.error == NumberAtEndOfInput(|input|))
  {
    RunEndOfRun(input, d + 1, f);
    assert ReadChar(At(input, d, line)) == At(input, d + 1, line);
    assert input[d..f] == ['.'] + input[d + 1..f];
    assert s + ['.'] + input[d + 1..f] == s + input[d..f];
  }

  /** `digits . digits*` is one `Float` token carrying the literal's text, and
      the first character after it is scanned next. When the literal ends the
      input, `back_char` fails. */
  lemma FloatLiteral(input: string, p: nat, d: nat, f: nat, line: nat)
    requires p < d < f <= |input|
    requires AllDigits(input[p..d]) && input[d] == '.'
    requires AllDigits(input[d + 1..f]) && !IsDigit(CharAt(input, f))
    ensures var r := MatchToken(At(input, p, line));
      && (r.Ok? <==> f < |input|)
      && (r.Ok? ==> r.value.0 == Token.Float(FloatLit(input[p..f])))
      && (r.Ok? ==> ReadChar(r.value.1) == At(input, f, line))
      && (r.Err? ==> r.error == NumberAtEndOfInput(|input|))
  {
    assert input[p..d] + input[d..f] == input[p..f];
    FloatRead(input, p, d, line);
    FractionRead(input, d, f, line, input[p..d]);
  }

  /** A run of digits that goes on with `.` is handed to the fraction branch
      of `read_number`, with the run as the text so far. */
  lemma FloatRead(input: string, p: nat, d: nat, line: nat)
    requires p < d < |input|
    requires AllDigits(input[p..d]) && input[d] == '.'
    ensures MatchToken(At(input, p, line)) == ReadFraction(At(input, d, line), input[p..d])
  {
    DigitRun(input, p, d, line);
    DigitStartsNumber(At(input, p, line));
  }

  /** A run of digits ended by a non-digit is read whole by the digit loop. */
  lemma DigitRun(input: string, p: nat, e: nat, line: nat)
    requires p < e <= |input|
    requires AllDigits(input[p..e]) && !IsDigit(CharAt(input, e))
    ensures IsDigit(input[p])
    ensures ReadDigits(At(input, p, line), "") == (input[p..e], At(input, e, line))
  {
    assert input[p..e][0] == input[p];
    RunEndOfRun(input, p, e);
    assert "" + input[p..e] == input[p..e];
  }

  /** A number that runs to the very end of the input makes `back_char` fail. */
  lemma NumberAtEnd(input: string, p: nat, line: nat)
    requires p < |input| && AllDigits(input[p..])
    ensures MatchToken(At(input, p, line)) == Err(NumberAtEndOfInput(|input|))
  {
    assert IsDigit(input[p..][0]);
    DigitStartsNumber(At(input, p, line));
    assert input[p..|input|] == input[p..];
    RunEndOfRun(input, p, |input|);
  }

  // ---------------------------------------------------------------------------
  // strings

  /** The closing quote is the first `"` after the opening one. */
  lemma {:induction false} NextQuoteIs(s: string, i: nat, q: nat)
    requires i <= q < |s| && s[q] == '"' && '"' !in s[i..q]
    ensures NextQuote(s, i) == q
    decreases q - i
  {
    if i < q {
      assert s[i..q][0] == s[i];
      assert s[i + 1..q] == s[i..q][1..];
      NextQuoteIs(s, i + 1, q);
    }
  }

  /** With no `"` left, the search runs to the end of the input. */
  lemma {:induction false} NextQuoteNone(s: string, i: nat)
    requires i <= |s| && '"' !in s[i..]
    ensures NextQuote(s, i) == |s|
    decreases |s| - i
  {
    if i < |s| {
      assert s[i..][0] == s[i];
      assert s[i + 1..] == s[i..][1..];
      NextQuoteNone(s, i + 1);
    }
  }

  /** A `"` yields a `String` token holding exactly the characters up to the
      next `"`; there are no escapes, and scanning resumes after the closing
      quote. */
  lemma StringLiteral(input: string, p: nat, q: nat, line: nat)
    requires p < q < |input| && input[p] == '"' && input[q] == '"' && '"' !in input[p + 1..q]
    ensures var r := MatchToken(At(input, p, line));
      r.Ok? && r.value.0 == Token.String(input[p + 1..q]) && ReadChar(r.value.1) == At(input, q + 1, line)
  {
    NextQuoteIs(input, p + 1, q);
    assert "" + input[p + 1..q] == input[p + 1..q];
  }

  /** A `"` with no closing `"` is reported rather than read forever. */
  lemma UnterminatedStringLiteral(input: string, p: nat, line: nat)
    requires p < |input| && input[p] == '"' && '"' !in input[p + 1..]
    ensures MatchToken(At(input, p, line)) == Err(UnterminatedString(p))
  {
    NextQuoteNone(input, p + 1);
  }

  // ---------------------------------------------------------------------------
  // single characters

  /** Each punctuation character is one fixed token and is consumed alone. */
  lemma PunctuationTokens(input: string, p: nat, line: nat)
    requires p < |input|
    ensures var l := At(input, p, line); var c := input[p];
      && (c == '(' ==> MatchToken(l) == Ok((Token.LeftParen, l)))
      && (c == ')' ==> MatchToken(l) == Ok((Token.RightParen, l)))
      && (c == '+' ==> MatchToken(l) == Ok((Token.Plus, l)))
      && (c == '-' ==> MatchToken(l) == Ok((Token.Minus, l)))
      && (c == '*' ==> MatchToken(l) == Ok((Token.Times, l)))
      && (c == '/' ==> MatchToken(l) == Ok((Token.Divide, l)))
      && (c == '.' ==> MatchToken(l) == Ok((Token.Dot, l)))
      && (c == ';' ==> MatchToken(l) == Ok((Token.SemiColon, l)))
      && (c == '\'' ==> MatchToken(l) == Ok((Token.Quote, l)))
      && (c == ' ' || c == '\t' || c == '\r' ==> MatchToken(l) == Ok((Token.WhiteSpace, l)))
      && (c == '\n' ==> MatchToken(l) == Ok((Token.NewLine, At(input, p, line + 1))))
  {
  }

  /** The characters the scanner recognises on their own. */
  predicate Recognised(c: char) {
    c in "()+-*/.;'\" \t\r\n\0" || IsDigit(c)
  }

  /** Every other character, letters included, is an `Illegal` token carrying
      the character, its index and the current line. */
  lemma IllegalCharacter(input: string, p: nat, line: nat)
    requires p < |input| && !Recognised(input[p])
    ensures var l := At(input, p, line);
      MatchToken(l) == Ok((Token.Illegal(input[p], p, line), l))
  {
  }

  // ---------------------------------------------------------------------------
  // line numbers

  function NewLines(ts: seq<Token>): nat {
    if |ts| == 0 then 0 else NewLines(ts[..|ts| - 1]) + (if ts[|ts| - 1] == Token.NewLine then 1 else 0)
  }

  lemma {:induction false} NewLinesAppend(a: seq<Token>, b: seq<Token>)
    ensures NewLines(a + b) == NewLines(a) + NewLines(b)
    decreases |b|
  {
    if |b| == 0 {
      assert a + b == a;
    } else {
      assert (a + b)[..|a + b| - 1] == a + b[..|b| - 1];
      NewLinesAppend(a, b[..|b| - 1]);
    }
  }

  /** Every `Illegal` token in `ts` reports the character at its recorded
      index (at or after `from`), and as its line `line` plus the number of
      `NewLine` tokens before it. */
  predicate IllegalTokensAccurate(ts: seq<Token>, input: string, from: nat, line: nat) {
    forall i | 0 <= i < |ts| && ts[i].Illegal? ::
      && from <= ts[i].pos < |input|
      && input[ts[i].pos] == ts[i].ch
      && ts[i].line == line + NewLines(ts[..i])
  }

  /** `match_token` makes an `Illegal` token only from the current character. */
  lemma MatchTokenIllegal(l: Lexer)
    requires Scanning(l)
    ensures var r := MatchToken(l);
      r.Ok? && r.value.0.Illegal? ==>
        r.value.0 == Token.Illegal(l.ch, l.position, l.line) && l.position < |l.input|
  {
  }

  lemma IllegalCons(t: Token, rest: seq<Token>, input: string, from: nat, next: nat, line: nat)
    requires from < next
    requires t.Illegal? ==> from <= t.pos < |input| && input[t.pos] == t.ch && t.line == line
    requires IllegalTokensAccurate(rest, input, next, line + (if t == Token.NewLine then 1 else 0))
    ensures IllegalTokensAccurate([t] + rest, input, from, line)
  {
    var ts := [t] + rest;
    forall i | 0 <= i < |ts| && ts[i].Illegal?
      ensures from <= ts[i].pos < |input|
      ensures input[ts[i].pos] == ts[i].ch
      ensures ts[i].line == line + NewLines(ts[..i])
    {
      if i == 0 {
        assert ts[..0] == [];
      } else {
        assert ts[i] == rest[i - 1];
        assert ts[..i] == [t] + rest[..i - 1];
        NewLinesAppend([t], rest[..i - 1]);
        assert NewLines([t]) == NewLines([]) + (if t == Token.NewLine then 1 else 0);
      }
    }
  }

  /** One turn of the `lex` loop: the token matched at the current character,
      and the state the next turn starts from. */
  lemma LexLoopStep(l: Lexer) returns (t: Token, next: Lexer)
    requires Scanning(l) && l.ch != NUL && LexLoop(l).Ok?
    ensures Scanning(next) && next.input == l.input && l.position < next.position
    ensures next.line == l.line + (if t == Token.NewLine then 1 else 0)
    ensures t.Illegal? ==> t == Token.Illegal(l.ch, l.position, l.line) && l.position < |l.input|
    ensures t != Token.Eof
    ensures LexLoop(next).Ok? && LexLoop(l).value == [t] + LexLoop(next).value
  {
    MatchTokenIllegal(l);
    t := MatchToken(l).value.0;
    next := ReadChar(MatchToken(l).value.1);
  }

  /** The `lex` loop produces `Eof` only as its last token. */
  lemma {:induction false} LexLoopSingleEof(l: Lexer)
    requires Scanning(l)
    ensures var r := LexLoop(l);
      r.Ok? ==> EofOnlyLast(r.value)
    decreases |l.input| - l.position
  {
    if LexLoop(l).Ok? && l.ch != NUL {
      var t, next := LexLoopStep(l);
      LexLoopSingleEof(next);
      EofOnlyLastCons(t, LexLoop(next).value);
    }
  }

  /** Every `Illegal` token reports the character at its recorded index, and as
      its line the starting line plus the number of `NewLine` tokens before it.
      A newline inside a string literal produces no `NewLine` token, so it is
      not counted. */
  lemma {:induction false} IllegalPositions(l: Lexer)
    requires Scanning(l)
    ensures var r := LexLoop(l);
      r.Ok? ==> IllegalTokensAccurate(r.value, l.input, l.position, l.line)
    decreases |l.input| - l.position
  {
    if LexLoop(l).Ok? && l.ch != NUL {
      var t, next := LexLoopStep(l);
      IllegalPositions(next);
      IllegalCons(t, LexLoop(next).value, l.input, l.position, next.position, l.line);
    } else if LexLoop(l).Ok? {
      assert LexLoop(l).value == [Token.Eof];
    }
  }

  /** For a whole input: `Illegal` tokens are on line 1 plus the newlines lexed before them. */
  lemma IllegalLines(input: string)
    ensures var r := LexLoop(New(input));
      r.Ok? ==> IllegalTokensAccurate(r.value, input, 0, 1)
  {
    IllegalPositions(New(input));
  }
}
