/**
 * The type checker: annotates every expression node with its type, checks
 * that operands, assignments and loop conditions agree, and otherwise leaves
 * the program's shape alone. Two types, no conversions.
 */
module TypeCheck {
  import opened Tokens
  import opened Errors
  import opened Ast
  import opened SymbolTable

  // ---------------------------------------------------------------------------
  // The typing rules, stated declaratively

  /** `e` has type `t` under the table `st`. */
  predicate HasType(st: SymTab, e: Expr, t: Type) {
    match e
    case IntLit(_) => t == Int
    case FloatLit(_) => t == Float
    case Id(x) => x in st && st[x] == t
    case BinOp(_, l, r) => HasType(st, l, t) && HasType(st, r, t)
  }

  predicate Typable(st: SymTab, e: Expr) {
    HasType(st, e, Int) || HasType(st, e, Float)
  }

  /**
   * A statement obeys the rules: an assignment's sides share a type, printed
   * and returned expressions have some type, a loop condition is an int.
   * `read` is not checked at all.
   */
  predicate StmtOk(st: SymTab, s: Stmt) {
    match s
    case Assign(x, e) => x in st && HasType(st, e, st[x])
    case Print(e) => Typable(st, e)
    case Return(e) => Typable(st, e)
    case Read(_) => true
    case While(c, body) => HasType(st, c, Int) && forall i :: 0 <= i < |body| ==> StmtOk(st, body[i])
  }

  /** Every node of a typed tree carries the type the rules give it. */
  predicate Annotated(st: SymTab, e: TExpr) {
    match e
    case TIntLit(_, t) => t == Int
    case TFloatLit(_, t) => t == Float
    case TId(x, t) => x in st && st[x] == t
    case TBinOp(_, l, r, t) => l.ty == t && r.ty == t && Annotated(st, l) && Annotated(st, r)
  }

  // ---------------------------------------------------------------------------
  // The checker

  /**
   * check_expr: literals get their own type, an identifier the declared one;
   * both operands are checked, left first, and must agree.
   */
  function CheckExpr(st: SymTab, e: Expr): (r: Result<TExpr>)
    ensures r.Success? ==> EraseExpr(r.value) == e && Annotated(st, r.value)
  {
    match e
    case IntLit(v) => Success(TIntLit(v, Int))
    case FloatLit(f) => Success(TFloatLit(f, Float))
    case Id(x) => if x in st then Success(TId(x, st[x])) else Failure(UndeclaredVariable(x))
    case BinOp(op, l, r) =>
      var tl :- CheckExpr(st, l);
      var tr :- CheckExpr(st, r);
      if tl.ty == tr.ty then Success(TBinOp(op, tl, tr, tl.ty))
      else Failure(OperandMismatch(tl.ty, tr.ty))
  }

  /**
   * check_stmt: the right-hand side is checked before the table is consulted
   * for the left-hand side; a loop condition is checked before its body.
   */
  function CheckStmt(st: SymTab, s: Stmt): (r: Result<TStmt>)
    ensures r.Success? ==> EraseStmt(r.value) == s
    decreases s, 1
  {
    match s
    case Print(e) =>
      var te :- CheckExpr(st, e);
      Success(TPrint(te))
    case Return(e) =>
      var te :- CheckExpr(st, e);
      Success(TReturn(te))
    case Read(t) => Success(TRead(t))
    case Assign(x, e) =>
      var te :- CheckExpr(st, e);
      if x !in st then Failure(UndeclaredVariable(x))
      else if te.ty == st[x] then Success(TAssign(x, te))
      else Failure(AssignMismatch(st[x], te.ty))
    case While(c, body) =>
      var tc :- CheckExpr(st, c);
      if tc.ty != Int then Failure(InvalidConditionType(tc.ty))
      else
        var tb :- CheckStmts(st, body);
        Success(TWhile(tc, tb))
  }

  /** The statements in order; the first failure ends the check. */
  function CheckStmts(st: SymTab, ss: seq<Stmt>): (r: Result<seq<TStmt>>)
    ensures r.Success? ==> EraseStmts(r.value) == ss
    decreases ss, 0
  {
    if ss == [] then Success([])
    else
      var t :- CheckStmt(st, ss[0]);
      var ts :- CheckStmts(st, ss[1..]);
      Success([t] + ts)
  }

  /** typecheck: the declarations are passed through, the statements replaced by their typed form. */
  function Typecheck(p: Program, st: SymTab): (r: Result<TProgram>)
    ensures r.Success? ==> r.value.decls == p.decls && EraseStmts(r.value.stmts) == p.stmts
  {
    var ts :- CheckStmts(st, p.stmts);
    Success(TProgram(p.decls, ts))
  }

  // ---------------------------------------------------------------------------
  // The checker against the rules

  /** A type, when there is one, is unique. */
  lemma {:induction false} TypeUnique(st: SymTab, e: Expr, t1: Type, t2: Type)
    requires HasType(st, e, t1) && HasType(st, e, t2)
    ensures t1 == t2
  {
    match e
    case BinOp(_, l, _) => TypeUnique(st, l, t1, t2);
    case _ =>
  }

  /** An annotated tree's root type is a type of the erased expression. */
  lemma {:induction false} AnnotatedHasType(st: SymTab, e: TExpr)
    requires Annotated(st, e)
    ensures HasType(st, EraseExpr(e), e.ty)
  {
    match e
    case TBinOp(_, l, r, _) =>
      AnnotatedHasType(st, l);
      AnnotatedHasType(st, r);
    case _ =>
  }

  /** check_expr succeeds exactly on expressions with a type, and returns that type. */
  lemma {:induction false} CheckExprIffTypable(st: SymTab, e: Expr, t: Type)
    ensures CheckExpr(st, e).Success? && CheckExpr(st, e).value.ty == t <==> HasType(st, e, t)
  {
    match e
    case BinOp(op, l, r) =>
      CheckExprIffTypable(st, l, t);
      CheckExprIffTypable(st, r, t);
      if CheckExpr(st, l).Success? && CheckExpr(st, r).Success? {
        var tl := CheckExpr(st, l).value.ty;
        var tr := CheckExpr(st, r).value.ty;
        CheckExprIffTypable(st, l, tl);
        CheckExprIffTypable(st, r, tr);
        if HasType(st, e, t) {
          TypeUnique(st, l, t, tl);
          TypeUnique(st, r, t, tr);
        }
      }
    case _ =>
  }

  lemma CheckExprSucceedsIffTypable(st: SymTab, e: Expr)
    ensures CheckExpr(st, e).Success? <==> Typable(st, e)
  {
    CheckExprIffTypable(st, e, Int);
    CheckExprIffTypable(st, e, Float);
  }

  lemma {:induction false} CheckStmtIffOk(st: SymTab, s: Stmt)
    ensures CheckStmt(st, s).Success? <==> StmtOk(st, s)
    decreases s, 1
  {
    match s
    case Print(e) => CheckExprSucceedsIffTypable(st, e);
    case Return(e) => CheckExprSucceedsIffTypable(st, e);
    case Read(_) =>
    case Assign(x, e) =>
      CheckExprSucceedsIffTypable(st, e);
      if x in st {
        CheckExprIffTypable(st, e, st[x]);
      }
    case While(c, body) =>
      CheckExprIffTypable(st, c, Int);
      CheckExprSucceedsIffTypable(st, c);
      CheckStmtsIffOk(st, body);
  }

  /** The statement list is accepted exactly when every statement obeys the rules. */
  lemma {:induction false} CheckStmtsIffOk(st: SymTab, ss: seq<Stmt>)
    ensures CheckStmts(st, ss).Success? <==> forall i :: 0 <= i < |ss| ==> StmtOk(st, ss[i])
    decreases ss, 0
  {
    if ss != [] {
      CheckStmtIffOk(st, ss[0]);
      CheckStmtsIffOk(st, ss[1..]);
      if forall i :: 0 <= i < |ss[1..]| ==> StmtOk(st, ss[1..][i]) {
        forall i | 0 <= i < |ss|
          ensures StmtOk(st, ss[i]) <==> (i == 0 && StmtOk(st, ss[0])) || (i > 0 && StmtOk(st, ss[1..][i - 1]))
        {
        }
      } else {
        var i :| 0 <= i < |ss[1..]| && !StmtOk(st, ss[1..][i]);
        assert ss[i + 1] == ss[1..][i];
      }
    }
  }

  /** typecheck accepts a program exactly when all of its statements obey the rules. */
  lemma TypecheckIffWellTyped(p: Program, st: SymTab)
    ensures Typecheck(p, st).Success? <==> forall i :: 0 <= i < |p.stmts| ==> StmtOk(st, p.stmts[i])
  {
    CheckStmtsIffOk(st, p.stmts);
  }

  /** The checker never consults the table for a `read`: its target need not be declared. */
  lemma ReadIsNotChecked(st: SymTab, t: IdToken)
    ensures CheckStmt(st, Read(t)) == Success(TRead(t))
  {
  }

  /**
   * An assignment to an undeclared variable reports the right-hand side's
   * error first, and is only reported itself once the right-hand side checks.
   */
  lemma AssignChecksRhsFirst(st: SymTab, x: string, e: Expr)
    requires x !in st
    ensures CheckExpr(st, e).Failure? ==> CheckStmt(st, Assign(x, e)) == Failure(CheckExpr(st, e).error)
    ensures CheckExpr(st, e).Success? ==> CheckStmt(st, Assign(x, e)) == Failure(UndeclaredVariable(x))
  {
  }

  /** A float loop condition is rejected before any statement of the body is looked at. */
  lemma FloatConditionRejected(st: SymTab, c: Expr, body: seq<Stmt>)
    requires HasType(st, c, Float)
    ensures CheckStmt(st, While(c, body)) == Failure(InvalidConditionType(Float))
  {
    CheckExprIffTypable(st, c, Float);
  }
}
