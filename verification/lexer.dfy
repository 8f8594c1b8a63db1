/** The single-pass scanner of src/lexer.rs.

    The scanner state is kept as an explicit record so that `read_char` and
    `back_char` can be stated exactly as the source writes them. Every place
    where the source panics or loops forever becomes a `LexError`. The input
    is taken to be ASCII, so that the source's byte length and character
    index agree. */
module Lexing {
  import opened Results
  import opened Tokens

  const NUL: char := '\0'

  datatype LexError =
    /** `back_char` after a number that ends the input: `chars().nth` is `None` and is unwrapped. */
    | NumberAtEndOfInput(position: nat)
    /** A run of digits whose value does not fit an `i64`: `parse().unwrap()` panics. */
    | IntegerOutOfRange(digits: string)
    /** A `"` with no closing `"`: `read_string` reads NUL forever and never returns. */
    | UnterminatedString(start: nat)

  /** The `Lexer` struct: `ch` is the character at `position`, and
      `readPosition` is where the next `read_char` reads. */
  datatype Lexer = Lexer(input: string, position: nat, readPosition: nat, line: nat, ch: char)

  /** What `read_char` fetches at index `i`: the character there, or NUL past the end. */
  function CharAt(s: string, i: nat): char {
    if i < |s| then s[i] else NUL
  }

  /** The state just after `read_char` has read index `p` on line `line`. */
  function At(input: string, p: nat, line: nat): Lexer {
    Lexer(input, p, p + 1, line, CharAt(input, p))
  }

  /** A state `read_char` has just produced, inside or just past the input. */
  predicate Scanning(l: Lexer) {
    l == At(l.input, l.position, l.line) && l.position <= |l.input|
  }

  /** Rust's `char::is_digit(10)`. */
  predicate IsDigit(c: char) {
    '0' <= c <= '9'
  }

  predicate AllDigits(ds: string) {
    forall i | 0 <= i < |ds| :: IsDigit(ds[i])
  }

  function DigitValue(c: char): nat
    requires IsDigit(c)
  {
    c as int - '0' as int
  }

  /** The value `str::parse` gives a run of decimal digits, most significant first. */
  function DecimalValue(ds: string): nat
    requires AllDigits(ds)
  {
    if |ds| == 0 then 0 else 10 * DecimalValue(ds[..|ds| - 1]) + DigitValue(ds[|ds| - 1])
  }

  /** `Lexer::new`: the first character is read before any token is matched. */
  function New(input: string): (l: Lexer)
    ensures Scanning(l) && l.input == input && l.position == 0 && l.line == 1
  {
    ReadChar(Lexer(input, 0, 0, 1, NUL))
  }

  /** `read_char`: move to `readPosition`; past the end the current character is NUL. */
  function ReadChar(l: Lexer): (r: Lexer)
    ensures r.input == l.input && r.line == l.line
    ensures r.position == l.readPosition && r.readPosition == r.position + 1
    ensures l.readPosition < |l.input| ==> r.ch == l.input[l.readPosition]
    ensures l.readPosition >= |l.input| ==> r.ch == NUL
    ensures Scanning(l) && l.position < |l.input| ==> Scanning(r) && r.position == l.position + 1
  {
    var c := if l.readPosition >= |l.input| then NUL else l.input[l.readPosition];
    l.(ch := c, position := l.readPosition, readPosition := l.readPosition + 1)
  }

  /** `back_char`: step `readPosition` back by one so that the next `read_char`
      reads the same index again. It unwraps the character there, so it fails
      when that index is past the end of the input. */
  function BackChar(l: Lexer): (r: Result<Lexer, LexError>)
    requires l.readPosition >= 1
    ensures r.Ok? <==> l.readPosition - 1 < |l.input|
    ensures r.Ok? ==> ReadChar(r.value) == At(l.input, l.readPosition - 1, l.line)
  {
    var p := l.readPosition - 1;
    if p < |l.input| then Ok(l.(readPosition := p, position := p, ch := l.input[p]))
    else Err(NumberAtEndOfInput(p))
  }

  /** The first index at or after `p` whose character (as `read_char` sees it) is not a digit. */
  function RunEnd(s: string, p: nat): (e: nat)
    requires p <= |s|
    ensures p <= e <= |s| && !IsDigit(CharAt(s, e))
    decreases |s| - p
  {
    if IsDigit(CharAt(s, p)) then RunEnd(s, p + 1) else p
  }

  /** Everything `RunEnd` skips is a digit. */
  lemma {:induction false} RunEndDigits(s: string, p: nat)
    requires p <= |s|
    ensures AllDigits(s[p..RunEnd(s, p)])
    decreases |s| - p
  {
    if IsDigit(CharAt(s, p)) {
      var e := RunEnd(s, p + 1);
      RunEndDigits(s, p + 1);
      assert s[p..e] == [s[p]] + s[p + 1..e];
    }
  }

  /** The digit loop of `read_number`: it appends the maximal run of digits
      starting at the current position. */
  function ReadDigits(l: Lexer, s: string): (r: (string, Lexer))
    requires Scanning(l)
    ensures r.1 == At(l.input, RunEnd(l.input, l.position), l.line)
    ensures r.0 == s + l.input[l.position..RunEnd(l.input, l.position)]
    decreases |l.input| - l.position
  {
    if IsDigit(l.ch) then
      var r := ReadDigits(ReadChar(l), s + [l.ch]);
      assert l.input[l.position..r.1.position] == [l.ch] + l.input[l.position + 1..r.1.position];
      r
    else
      assert s + l.input[l.position..l.position] == s;
      (s, l)
  }

  /** `read_number`: digits, then optionally `.` and more digits. The scanner is
      left so that the next `read_char` re-reads the first character after the
      literal. */
  function ReadNumber(l: Lexer): (r: Result<(Token, Lexer), LexError>)
    requires Scanning(l) && IsDigit(l.ch)
    ensures r.Ok? ==> r.value.1.input == l.input && r.value.1.line == l.line
    ensures r.Ok? ==> l.position < r.value.1.readPosition < |l.input|
    ensures r.Ok? ==> r.value.0.Integer? || r.value.0.Float?
  {
    var (s, l1) := ReadDigits(l, "");
    if l1.ch == '.' then
      ReadFraction(l1, s)
    else
      var l2 :- BackChar(l1);
      RunEndDigits(l.input, l.position);
      var n := DecimalValue(s);
      if n <= I64_MAX then Ok((Token.Integer(n), l2)) else Err(IntegerOutOfRange(s))
  }

  /** The `.` branch of `read_number`: keep the point, read the digits after
      it, and step back before the character that ended them. */
  function ReadFraction(l: Lexer, s: string): (r: Result<(Token, Lexer), LexError>)
    requires Scanning(l) && l.ch == '.'
    ensures r.Ok? ==> r.value.1.input == l.input && r.value.1.line == l.line
    ensures r.Ok? ==> l.position < r.value.1.readPosition < |l.input|
    ensures r.Ok? ==> r.value.0.Float?
  {
    var (s2, l2) := ReadDigits(ReadChar(l), s + ['.']);
    var l3 :- BackChar(l2);
    Ok((Token.Float(FloatLit(s2)), l3))
  }

  /** `read_string`: skip the opening quote and collect characters up to the
      next `"`, which is left as the current character. */
  function ReadString(l: Lexer): (r: Result<(Token, Lexer), LexError>)
    requires Scanning(l) && l.ch == '"'
    ensures r.Ok? ==> r.value.1.input == l.input && r.value.1.line == l.line
    ensures r.Ok? ==> l.position < r.value.1.position < |l.input| && r.value.1.readPosition == r.value.1.position + 1
    ensures r.Ok? ==> r.value.0.String?
    ensures r.Ok? ==> r.value.1.ch == '"' && r.value.0 == Token.String(l.input[l.position + 1..r.value.1.position])
    ensures r.Ok? <==> '"' in l.input[l.position + 1..]
    ensures r.Err? ==> r.error == UnterminatedString(l.position)
  {
    NextQuoteSkips(l.input, l.position + 1);
    ReadStringBody(ReadChar(l), "", l.position)
  }

  /** The index of the first `"` at or after `i`, or the input's length if there is none. */
  function NextQuote(s: string, i: nat): (q: nat)
    requires i <= |s|
    ensures i <= q <= |s|
    ensures q < |s| ==> s[q] == '"'
    decreases |s| - i
  {
    if i == |s| || s[i] == '"' then i else NextQuote(s, i + 1)
  }

  /** No `"` lies between `i` and the quote `NextQuote` finds. */
  lemma {:induction false} NextQuoteSkips(s: string, i: nat)
    requires i <= |s|
    ensures '"' !in s[i..NextQuote(s, i)]
    decreases |s| - i
  {
    if i < |s| && s[i] != '"' {
      var q := NextQuote(s, i + 1);
      NextQuoteSkips(s, i + 1);
      assert s[i..q] == [s[i]] + s[i + 1..q];
    }
  }

  /** The body loop of `read_string`, which collects characters until the
      current one is a quote. Once past the end the current character is NUL
      for good, so the source loop never ends there; the model reports it
      instead. */
  function ReadStringBody(l: Lexer, s: string, start: nat): (r: Result<(Token, Lexer), LexError>)
    requires Scanning(l)
    ensures var q := NextQuote(l.input, l.position);
      && (r.Ok? <==> q < |l.input|)
      && (r.Ok? ==> r.value == (Token.String(s + l.input[l.position..q]), At(l.input, q, l.line)))
      && (r.Err? ==> r.error == UnterminatedString(start))
    decreases |l.input| - l.position
  {
    if l.position >= |l.input| then Err(UnterminatedString(start))
    else if l.ch == '"' then
      assert s + l.input[l.position..l.position] == s;
      Ok((Token.String(s), l))
    else
      var q := NextQuote(l.input, l.position);
      assert q == NextQuote(l.input, l.position + 1);
      assert l.input[l.position..q] == [l.ch] + l.input[l.position + 1..q];
      assert s + l.input[l.position..q] == (s + [l.ch]) + l.input[l.position + 1..q];
      ReadStringBody(ReadChar(l), s + [l.ch], start)
  }

  /** `match_token`: the token that starts at the current character. The arms
      of the source's `match` are disjoint, so they are grouped here by what
      they do: `"` and digits start multi-character literals, a newline also
      bumps the line counter, and every other character is a token on its own. */
  function MatchToken(l: Lexer): (r: Result<(Token, Lexer), LexError>)
    requires Scanning(l)
    ensures r.Ok? ==> r.value.1.input == l.input
    ensures r.Ok? ==> (r.value.0 == Token.Eof <==> l.ch == NUL)
    ensures r.Ok? ==> r.value.1.line == if l.ch == '\n' then l.line + 1 else l.line
    ensures r.Ok? && l.ch != NUL ==> l.position < r.value.1.readPosition <= |l.input|
  {
    if l.ch == '"' then ReadString(l)
    else if IsDigit(l.ch) then ReadNumber(l)
    else if l.ch == '\n' then Ok((Token.NewLine, l.(line := l.line + 1)))
    else Ok((CharToken(l.ch, l.position, l.line), l))
  }

  /** The arms of `match_token` for characters that are a token by themselves. */
  function CharToken(c: char, position: nat, line: nat): (t: Token)
    requires c != '"' && c != '\n' && !IsDigit(c)
    ensures t == Token.Eof <==> c == NUL
    ensures t != Token.NewLine && !t.Integer? && !t.Float? && !t.String?
  {
    match c
    case '(' => Token.LeftParen
    case ')' => Token.RightParen
    case '+' => Token.Plus
    case '-' => Token.Minus
    case '*' => Token.Times
    case '/' => Token.Divide
    case '.' => Token.Dot
    case ';' => Token.SemiColon
    case '\'' => Token.Quote
    case ' ' => Token.WhiteSpace
    case '\t' => Token.WhiteSpace
    case '\r' => Token.WhiteSpace
    case '\0' => Token.Eof
    case _ => Token.Illegal(c, position, line)
  }

  /** The main loop of `lex`: match a token and read on while the current
      character is not NUL, then match once more (which yields `Eof`). */
  function LexLoop(l: Lexer): (r: Result<seq<Token>, LexError>)
    requires Scanning(l)
    ensures r.Ok? ==> |r.value| > 0 && r.value[|r.value| - 1] == Token.Eof
    decreases |l.input| - l.position
  {
    if l.ch != NUL then
      var step :- MatchToken(l);
      var rest :- LexLoop(ReadChar(step.1));
      Ok([step.0] + rest)
    else
      var last :- MatchToken(l);
      Ok([last.0])
  }

  predicate IsBlank(t: Token) {
    t == Token.WhiteSpace || t == Token.NewLine
  }

  /** `strip_whitespace`: drop `WhiteSpace` and `NewLine` tokens, keep the rest in order. */
  function StripWhitespace(ts: seq<Token>): (r: seq<Token>)
    ensures |r| <= |ts|
    ensures |r| == |ts| ==> r == ts
    ensures forall i | 0 <= i < |r| :: !IsBlank(r[i])
    ensures |ts| > 0 && !IsBlank(ts[|ts| - 1]) ==> |r| > 0 && r[|r| - 1] == ts[|ts| - 1]
  {
    if |ts| == 0 then []
    else if IsBlank(ts[0]) then StripWhitespace(ts[1..])
    else [ts[0]] + StripWhitespace(ts[1..])
  }

  /** `lex`: the whole input as tokens, ending in `Eof`, with blanks removed.
      The debug dump of the token list is output only and is not modelled. */
  function Lex(input: string): (r: Result<seq<Token>, LexError>)
    ensures r.Ok? <==> LexLoop(New(input)).Ok?
    ensures r.Ok? ==> |r.value| > 0 && r.value[|r.value| - 1] == Token.Eof
    ensures r.Ok? ==> forall i | 0 <= i < |r.value| :: !IsBlank(r.value[i])
  {
    match LexLoop(New(input))
    case Err(e) => Err(e)
    case Ok(raw) =>
      assert raw[|raw| - 1] == Token.Eof;
      Ok(StripWhitespace(raw))
  }
}
