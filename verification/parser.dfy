/**
 * The predictive recursive-descent parser. Every non-terminal is a function
 * from the remaining tokens to the parsed value and the tokens left over; the
 * `expr` and `term` loops are the left folds `ParseExprTail` and
 * `ParseTermTail`, the `decls` and `stmts` loops are `ParseDecls` and
 * `ParseStmts`. `Parse` returns the
 * program and drops whatever tokens are left over, as Minilang's `parse`
 * never checks that the input was exhausted.
 */
module Parser {
  import opened Tokens
  import opened Errors
  import opened Ast

  datatype Parsed<T> = Parsed(value: T, rest: seq<Token>)

  /** The kind of the next token, or None at the end. */
  function Peek(toks: seq<Token>): (k: Option<TokKind>)
    ensures k.Some? <==> |toks| > 0
    ensures k.Some? ==> k.value == toks[0].Kind()
  {
    if toks == [] then None else Some(toks[0].Kind())
  }

  /** Removes the head token if it has the expected kind; fails otherwise. */
  function Consume(toks: seq<Token>, kind: TokKind): (r: Result<Parsed<Token>>)
    ensures r.Success? <==> |toks| > 0 && toks[0].Kind() == kind
    ensures r.Success? ==> r.value.value == toks[0] && r.value.rest == toks[1..]
    ensures toks == [] ==> r == Failure(UnexpectedEndOfTokens)
    ensures toks != [] && toks[0].Kind() != kind ==> r == Failure(Expected(kind, toks[0].Kind()))
  {
    if toks == [] then Failure(UnexpectedEndOfTokens)
    else if toks[0].Kind() == kind then Success(Parsed(toks[0], toks[1..]))
    else Failure(Expected(kind, toks[0].Kind()))
  }

  /** FIRST set of `stmt`: the statement loop runs exactly while the next token is one of these. */
  predicate StartsStmt(k: Option<TokKind>) {
    k == Some(PRINT) || k == Some(RETURN) || k == Some(READ) || k == Some(ID) || k == Some(WHILE)
  }

  predicate IsAddOp(k: Option<TokKind>) {
    k == Some(PLUS) || k == Some(MINUS)
  }

  predicate IsMulOp(k: Option<TokKind>) {
    k == Some(STAR) || k == Some(SLASH) || k == Some(GTHAN) || k == Some(LTHAN)
  }

  /** The operator a binary-operator token stands for. */
  function OpOf(k: TokKind): (r: Op)
    requires IsAddOp(Some(k)) || IsMulOp(Some(k))
  {
    match k
    case PLUS => Add
    case MINUS => Sub
    case STAR => Mul
    case SLASH => Div
    case GTHAN => Gt
    case LTHAN => Lt
  }

  // ---------------------------------------------------------------------------
  // program, decls, decl

  function ParseProgram(toks: seq<Token>): (r: Result<Parsed<Program>>)
    ensures r.Success? ==> |r.value.rest| <= |toks|
    ensures r.Success? ==> !StartsStmt(Peek(r.value.rest))
  {
    var ds :- ParseDecls(toks);
    var ss :- ParseStmts(ds.rest);
    Success(Parsed(Program(ds.value, ss.value), ss.rest))
  }

  /** The whole parser: the tokens after the last statement are ignored. */
  function Parse(toks: seq<Token>): (r: Result<Program>) {
    var p :- ParseProgram(toks);
    Success(p.value)
  }

  /** All leading `var` declarations; stops at the first token that is not `var`. */
  function ParseDecls(toks: seq<Token>): (r: Result<Parsed<seq<Decl>>>)
    ensures r.Success? ==> |r.value.rest| <= |toks| && Peek(r.value.rest) != Some(VAR)
    decreases |toks|
  {
    if Peek(toks) == Some(VAR) then
      var d :- ParseDecl(toks);
      var ds :- ParseDecls(d.rest);
      Success(Parsed([d.value] + ds.value, ds.rest))
    else Success(Parsed([], toks))
  }

  /** decl ::= 'var' ident ':' type ';' */
  function ParseDecl(toks: seq<Token>): (r: Result<Parsed<Ast.Decl>>)
    ensures r.Success? ==> |r.value.rest| < |toks|
  {
    if Peek(toks) == Some(VAR) then ParseDeclFields(Consume(toks, VAR).value.rest)
    else Failure(NotADeclaration)
  }

  /** The part of a declaration after `var`. */
  function ParseDeclFields(toks: seq<Token>): (r: Result<Parsed<Ast.Decl>>)
    ensures r.Success? ==> |r.value.rest| < |toks|
  {
    var id :- Consume(toks, ID);
    var colon :- Consume(id.rest, COLON);
    var ty :- Consume(colon.rest, TYPE);
    var semi :- Consume(ty.rest, SEMI);
    Success(Parsed(Ast.Decl(id.value.name, ty.value.ty), semi.rest))
  }


  // ---------------------------------------------------------------------------
  // stmts, stmt

  function ParseStmts(toks: seq<Token>): (r: Result<Parsed<seq<Stmt>>>)
    ensures r.Success? ==> |r.value.rest| <= |toks| && !StartsStmt(Peek(r.value.rest))
    decreases |toks|, 2
  {
    if StartsStmt(Peek(toks)) then
      var s :- ParseStmt(toks);
      var ss :- ParseStmts(s.rest);
      Success(Parsed([s.value] + ss.value, ss.rest))
    else Success(Parsed([], toks))
  }

  /** stmt: one alternative per FIRST token; anything else is an illegal statement. */
  function ParseStmt(toks: seq<Token>): (r: Result<Parsed<Ast.Stmt>>)
    ensures r.Success? ==> |r.value.rest| < |toks|
    decreases |toks|, 1
  {
    var next := Peek(toks);
    if next == Some(ID) then ParseAssign(toks)
    else if next == Some(PRINT) then ParsePrint(toks)
    else if next == Some(RETURN) then ParseReturn(toks)
    else if next == Some(READ) then ParseRead(toks)
    else if next == Some(WHILE) then ParseWhile(toks)
    else Failure(IllegalStatement)
  }

  /** ident '=' expr ';' */
  function ParseAssign(toks: seq<Token>): (r: Result<Parsed<Ast.Stmt>>)
    requires Peek(toks) == Some(ID)
    ensures r.Success? ==> |r.value.rest| < |toks|
  {
    var id := Consume(toks, ID).value;
    var eq :- Consume(id.rest, EQ);
    var e :- ParseExpr(eq.rest);
    var semi :- Consume(e.rest, SEMI);
    Success(Parsed(Assign(id.value.name, e.value), semi.rest))
  }

  /** 'print' expr ';' */
  function ParsePrint(toks: seq<Token>): (r: Result<Parsed<Ast.Stmt>>)
    requires Peek(toks) == Some(PRINT)
    ensures r.Success? ==> |r.value.rest| < |toks|
  {
    var kw := Consume(toks, PRINT).value;
    var e :- ParseExpr(kw.rest);
    var semi :- Consume(e.rest, SEMI);
    Success(Parsed(Print(e.value), semi.rest))
  }

  /** 'return' expr ';' */
  function ParseReturn(toks: seq<Token>): (r: Result<Parsed<Ast.Stmt>>)
    requires Peek(toks) == Some(RETURN)
    ensures r.Success? ==> |r.value.rest| < |toks|
  {
    var kw := Consume(toks, RETURN).value;
    var e :- ParseExpr(kw.rest);
    var semi :- Consume(e.rest, SEMI);
    Success(Parsed(Return(e.value), semi.rest))
  }

  /** 'read' ident ';' — the node keeps the whole ID token. */
  function ParseRead(toks: seq<Token>): (r: Result<Parsed<Ast.Stmt>>)
    requires Peek(toks) == Some(READ)
    ensures r.Success? ==> |r.value.rest| < |toks|
  {
    var kw := Consume(toks, READ).value;
    var id :- Consume(kw.rest, ID);
    var semi :- Consume(id.rest, SEMI);
    Success(Parsed(Read(id.value), semi.rest))
  }

  /** 'while' expr 'do' stmts 'done' */
  function ParseWhile(toks: seq<Token>): (r: Result<Parsed<Ast.Stmt>>)
    requires Peek(toks) == Some(WHILE)
    ensures r.Success? ==> |r.value.rest| < |toks|
    decreases |toks|, 0
  {
    var kw := Consume(toks, WHILE).value;
    var e :- ParseExpr(kw.rest);
    ParseLoopBody(e.value, e.rest)
  }

  /** The part of a `while` after its condition: 'do' stmts 'done'. */
  function ParseLoopBody(cond: Ast.Expr, toks: seq<Token>): (r: Result<Parsed<Ast.Stmt>>)
    ensures r.Success? ==> |r.value.rest| < |toks|
    decreases |toks|, 0
  {
    var d :- Consume(toks, DO);
    var body :- ParseStmts(d.rest);
    var done :- Consume(body.rest, DONE);
    Success(Parsed(While(cond, body.value), done.rest))
  }

  // ---------------------------------------------------------------------------
  // expr, term, factor

  /** expr ::= term (('+' | '-') term)* */
  function ParseExpr(toks: seq<Token>): (r: Result<Parsed<Ast.Expr>>)
    ensures r.Success? ==> |r.value.rest| < |toks| && !IsAddOp(Peek(r.value.rest))
    decreases |toks|, 2
  {
    var t :- ParseTerm(toks);
    ParseExprTail(t.value, t.rest)
  }

  /** The `expr` loop: each further term is folded in on the right of what was parsed so far. */
  function ParseExprTail(acc: Ast.Expr, toks: seq<Token>): (r: Result<Parsed<Ast.Expr>>)
    ensures r.Success? ==> |r.value.rest| <= |toks| && !IsAddOp(Peek(r.value.rest))
    decreases |toks|, 2
  {
    var next := Peek(toks);
    if IsAddOp(next) then
      var op := Consume(toks, next.value).value;
      var t :- ParseTerm(op.rest);
      ParseExprTail(BinOp(OpOf(next.value), acc, t.value), t.rest)
    else Success(Parsed(acc, toks))
  }

  /** term ::= factor (('*' | '/' | '>' | '<') factor)* */
  function ParseTerm(toks: seq<Token>): (r: Result<Parsed<Ast.Expr>>)
    ensures r.Success? ==> |r.value.rest| < |toks| && !IsMulOp(Peek(r.value.rest))
    decreases |toks|, 1
  {
    var f :- ParseFactor(toks);
    ParseTermTail(f.value, f.rest)
  }

  function ParseTermTail(acc: Ast.Expr, toks: seq<Token>): (r: Result<Parsed<Ast.Expr>>)
    ensures r.Success? ==> |r.value.rest| <= |toks| && !IsMulOp(Peek(r.value.rest))
    decreases |toks|, 1
  {
    var next := Peek(toks);
    if IsMulOp(next) then
      var op := Consume(toks, next.value).value;
      var f :- ParseFactor(op.rest);
      ParseTermTail(BinOp(OpOf(next.value), acc, f.value), f.rest)
    else Success(Parsed(acc, toks))
  }

  /** factor ::= '(' expr ')' | int | float | ident; parentheses produce no node. */
  function ParseFactor(toks: seq<Token>): (r: Result<Parsed<Ast.Expr>>)
    ensures r.Success? ==> |r.value.rest| < |toks|
    decreases |toks|, 0
  {
    var next := Peek(toks);
    if next == Some(LPAREN) then
      var lp := Consume(toks, LPAREN).value;
      var e :- ParseExpr(lp.rest);
      var rp :- Consume(e.rest, RPAREN);
      Success(Parsed(e.value, rp.rest))
    else if next == Some(INT) then
      var t := Consume(toks, INT).value;
      Success(Parsed(IntLit(t.value.value), t.rest))
    else if next == Some(FLOAT) then
      var t := Consume(toks, FLOAT).value;
      Success(Parsed(FloatLit(t.value.lexeme), t.rest))
    else if next == Some(ID) then
      var t := Consume(toks, ID).value;
      Success(Parsed(Id(t.value.name), t.rest))
    else Failure(IllegalToken(next))
  }
}
