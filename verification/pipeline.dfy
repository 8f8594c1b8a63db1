/** One turn of the read-eval loop in src/main.rs without its I/O: lex a line,
    parse the tokens, evaluate the statements. */
module Pipeline {
  import opened Results
  import opened Tokens
  import opened Ast
  import Lexing
  import opened Parsing
  import opened Evaluation

  /** Where a turn ends: a lexer panic, a parser panic, a parser that never
      returns, or the evaluator's outcome. */
  datatype Turn =
    | LexFailed(lexError: Lexing.LexError)
    | ParseAborted(message: string)
    | ParseStuck(at: nat)
    | Evaluated(outcome: Outcome)

  /** Every statement the parser builds is one the evaluator has an arm for,
      so the evaluator's non-exhaustive match is never reached. */
  lemma {:induction false} ParsedProgramsAreHandled(ss: seq<Statement>)
    requires ParsedProgram(ss)
    ensures AllHandled(ss)
  {
    forall i | 0 <= i < |ss| ensures Handled(ss[i]) {
      assert ParsedStatement(ss[i]);
    }
  }

  /** `Lexer::new(input).lex()`, `Parser::new(..).parse()`, then `eval`. The
      lexer's tokens always satisfy the parser's demand, a parser panic or
      endless loop ends the turn, and a line that parses is evaluated as the
      parser returned it. */
  function Run(input: string): (r: Turn)
    ensures r.LexFailed? <==> Lexing.Lex(input).Err?
    ensures r.LexFailed? ==> r.lexError == Lexing.Lex(input).error
    ensures Lexing.Lex(input).Ok? ==> WellFormed(Lexing.Lex(input).value)
    ensures r.ParseAborted? ==> Lexing.Lex(input).Ok? && Parse(Lexing.Lex(input).value) == Aborted(r.message)
    ensures r.ParseStuck? ==> Lexing.Lex(input).Ok? && Parse(Lexing.Lex(input).value) == Stuck(r.at)
    ensures r.Evaluated? <==> Lexing.Lex(input).Ok? && Parse(Lexing.Lex(input).value).Program?
    ensures r.Evaluated? ==>
      && AllHandled(Parse(Lexing.Lex(input).value).stmts)
      && r.outcome == Eval(Parse(Lexing.Lex(input).value).stmts)
  {
    match Lexing.Lex(input)
    case Err(e) => LexFailed(e)
    case Ok(toks) =>
      match Parse(toks)
      case Aborted(m) => ParseAborted(m)
      case Stuck(at) => ParseStuck(at)
      case Program(ss) =>
        ParsedProgramsAreHandled(ss);
        Evaluated(Eval(ss))
  }
}
