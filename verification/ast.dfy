/**
 * The abstract syntax: untyped trees built by the parser and typed trees built
 * by the type checker. The typed tree is a separate datatype whose expression
 * nodes all carry a `ty`; `Erase` forgets it again.
 */
module Ast {
  import opened Tokens

  datatype Op = Add | Sub | Mul | Div | Gt | Lt

  function OpText(op: Op): (r: string) {
    match op
    case Add => "+"
    case Sub => "-"
    case Mul => "*"
    case Div => "/"
    case Gt => ">"
    case Lt => "<"
  }

  datatype Expr =
    | IntLit(value: nat)
    | FloatLit(lexeme: FloatLexeme)
    | Id(name: string)
    | BinOp(op: Op, lhs: Expr, rhs: Expr)

  datatype Decl = Decl(name: string, ty: Type)

  datatype Stmt =
    | Assign(lhs: string, rhs: Expr)
    | Print(expr: Expr)
    | Return(expr: Expr)
    | Read(target: IdToken)
    | While(cond: Expr, body: seq<Stmt>)

  datatype Program = Program(decls: seq<Decl>, stmts: seq<Stmt>)

  datatype TExpr =
    | TIntLit(value: nat, ty: Type)
    | TFloatLit(lexeme: FloatLexeme, ty: Type)
    | TId(name: string, ty: Type)
    | TBinOp(op: Op, lhs: TExpr, rhs: TExpr, ty: Type)

  datatype TStmt =
    | TAssign(lhs: string, rhs: TExpr)
    | TPrint(expr: TExpr)
    | TReturn(expr: TExpr)
    | TRead(target: IdToken)
    | TWhile(cond: TExpr, body: seq<TStmt>)

  datatype TProgram = TProgram(decls: seq<Decl>, stmts: seq<TStmt>)

  function EraseExpr(e: TExpr): (r: Expr) {
    match e
    case TIntLit(v, _) => IntLit(v)
    case TFloatLit(f, _) => FloatLit(f)
    case TId(x, _) => Id(x)
    case TBinOp(op, l, r, _) => BinOp(op, EraseExpr(l), EraseExpr(r))
  }

  function EraseStmt(s: TStmt): (r: Stmt) {
    match s
    case TAssign(x, e) => Assign(x, EraseExpr(e))
    case TPrint(e) => Print(EraseExpr(e))
    case TReturn(e) => Return(EraseExpr(e))
    case TRead(t) => Read(t)
    case TWhile(c, body) => While(EraseExpr(c), EraseStmts(body))
  }

  function EraseStmts(ss: seq<TStmt>): (r: seq<Stmt>)
    ensures |r| == |ss|
  {
    if ss == [] then [] else [EraseStmt(ss[0])] + EraseStmts(ss[1..])
  }

  /** The identifiers an expression reads. */
  function Vars(e: TExpr): (r: set<string>) {
    match e
    case TIntLit(_, _) => {}
    case TFloatLit(_, _) => {}
    case TId(x, _) => {x}
    case TBinOp(_, l, r, _) => Vars(l) + Vars(r)
  }
}
