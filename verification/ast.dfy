/** The syntax tree the parser builds (src/ast.rs). Several constructors are
    declared by the source but never produced by its parser; they are kept so
    that the evaluator's catch-all arm has something to catch. */
module Ast {
  import opened Tokens

  datatype Expression =
    | Prefix(op: Token, operand: Expression)
    | Infix(left: Expression, op: Token, right: Expression)
    | Integer(i: I64)
    | Float(f: FloatLit)
    | String(s: string)
    | Boolean(b: bool)
    | Identifier(name: string)
    | Variable(name: string)
    | Assign(name: string, value: Expression)
    | Null

  datatype Statement =
    | ExpressionStatement(expr: Expression)
    | If(cond: Expression, body: Statement)
    | IfElse(cond: Expression, thenBody: Statement, elseBody: Statement)
    | While(cond: Expression, body: Statement)
    | Let(name: string, typeName: string, init: Expression)
    | Block(stmts: seq<Statement>)
    | Print(expr: Expression)
}
