/**
 * Laws of the parser. The partner of `Parse` is `ProgramTokens`, a printer that
 * writes a tree back as tokens, parenthesising every operand that is itself a
 * binary operation. Parsing a printed program gives the program back, whatever
 * tokens follow it, provided they cannot continue it. The remaining lemmas pin
 * down associativity, precedence and the shape of individual productions.
 */
module ParserLaws {
  import opened Tokens
  import opened Errors
  import opened Ast
  import opened Parser

  function OpToken(op: Op): (t: Token)
    ensures IsAddOp(Some(t.Kind())) || IsMulOp(Some(t.Kind()))
    ensures OpOf(t.Kind()) == op
  {
    match op
    case Add => PlusTok
    case Sub => MinusTok
    case Mul => StarTok
    case Div => SlashTok
    case Gt => GtTok
    case Lt => LtTok
  }

  predicate IsAdditive(op: Op) {
    op == Add || op == Sub
  }

  function ExprTokens(e: Expr): (r: seq<Token>)
    decreases e, 0
  {
    match e
    case IntLit(v) => [IntTok(v)]
    case FloatLit(f) => [FloatTok(f)]
    case Id(x) => [IdTok(x)]
    case BinOp(op, l, r) => OperandTokens(l) + [OpToken(op)] + OperandTokens(r)
  }

  /** An operand is written in parentheses when it is itself a binary operation. */
  function OperandTokens(e: Expr): (r: seq<Token>)
    decreases e, 1
  {
    if e.BinOp? then [LParenTok] + ExprTokens(e) + [RParenTok] else ExprTokens(e)
  }

  function StmtTokens(s: Stmt): (r: seq<Token>) {
    match s
    case Assign(x, e) => [IdTok(x), EqTok] + ExprTokens(e) + [SemiTok]
    case Print(e) => [PrintTok] + ExprTokens(e) + [SemiTok]
    case Return(e) => [ReturnTok] + ExprTokens(e) + [SemiTok]
    case Read(t) => [ReadTok, t, SemiTok]
    case While(c, body) => [WhileTok] + ExprTokens(c) + [DoTok] + StmtsTokens(body) + [DoneTok]
  }

  function StmtsTokens(ss: seq<Stmt>): (r: seq<Token>) {
    if ss == [] then [] else StmtTokens(ss[0]) + StmtsTokens(ss[1..])
  }

  function DeclTokens(d: Ast.Decl): (r: seq<Token>) {
    [VarTok, IdTok(d.name), ColonTok, TypeTok(d.ty), SemiTok]
  }

  function DeclsTokens(ds: seq<Ast.Decl>): (r: seq<Token>) {
    if ds == [] then [] else DeclTokens(ds[0]) + DeclsTokens(ds[1..])
  }

  function ProgramTokens(p: Program): (r: seq<Token>) {
    DeclsTokens(p.decls) + StmtsTokens(p.stmts)
  }

  /** Tokens that cannot continue an expression. */
  predicate EndsExpr(rest: seq<Token>) {
    !IsAddOp(Peek(rest)) && !IsMulOp(Peek(rest))
  }

  // ---------------------------------------------------------------------------
  // One-step equations of the expression parser

  lemma ExprStep(toks: seq<Token>, t: Expr, r: seq<Token>)
    requires ParseTerm(toks) == Success(Parsed(t, r))
    ensures ParseExpr(toks) == ParseExprTail(t, r)
  {
  }

  lemma ExprTailStops(acc: Expr, toks: seq<Token>)
    requires !IsAddOp(Peek(toks))
    ensures ParseExprTail(acc, toks) == Success(Parsed(acc, toks))
  {
  }

  lemma ExprTailStep(acc: Expr, op: Op, toks: seq<Token>, t: Expr, r: seq<Token>)
    requires IsAdditive(op)
    requires ParseTerm(toks) == Success(Parsed(t, r))
    ensures ParseExprTail(acc, [OpToken(op)] + toks) == ParseExprTail(BinOp(op, acc, t), r)
  {
    assert Consume([OpToken(op)] + toks, OpToken(op).Kind()) == Success(Parsed(OpToken(op), toks));
  }

  lemma TermStep(toks: seq<Token>, f: Expr, r: seq<Token>)
    requires ParseFactor(toks) == Success(Parsed(f, r))
    ensures ParseTerm(toks) == ParseTermTail(f, r)
  {
  }

  lemma TermTailStops(acc: Expr, toks: seq<Token>)
    requires !IsMulOp(Peek(toks))
    ensures ParseTermTail(acc, toks) == Success(Parsed(acc, toks))
  {
  }

  lemma TermTailStep(acc: Expr, op: Op, toks: seq<Token>, f: Expr, r: seq<Token>)
    requires !IsAdditive(op)
    requires ParseFactor(toks) == Success(Parsed(f, r))
    ensures ParseTermTail(acc, [OpToken(op)] + toks) == ParseTermTail(BinOp(op, acc, f), r)
  {
    assert Consume([OpToken(op)] + toks, OpToken(op).Kind()) == Success(Parsed(OpToken(op), toks));
  }

  /** A factor followed by something other than a multiplicative operator is a whole term. */
  lemma TermIsFactor(toks: seq<Token>, f: Expr, r: seq<Token>)
    requires ParseFactor(toks) == Success(Parsed(f, r))
    requires !IsMulOp(Peek(r))
    ensures ParseTerm(toks) == Success(Parsed(f, r))
  {
    TermStep(toks, f, r);
    TermTailStops(f, r);
  }

  lemma AtomParses(e: Expr, rest: seq<Token>)
    requires !e.BinOp?
    ensures ParseFactor(ExprTokens(e) + rest) == Success(Parsed(e, rest))
  {
    match e
    case IntLit(v) => ConsumeHead(IntTok(v), rest);
    case FloatLit(f) => ConsumeHead(FloatTok(f), rest);
    case Id(x) => ConsumeHead(IdTok(x), rest);
  }


  // ---------------------------------------------------------------------------
  // Expressions

  lemma {:induction false} OperandParses(e: Expr, rest: seq<Token>)
    ensures ParseFactor(OperandTokens(e) + rest) == Success(Parsed(e, rest))
    decreases e, 1
  {
    if e.BinOp? {
      var inner := ExprTokens(e);
      var toks := OperandTokens(e) + rest;
      assert toks == [LParenTok] + (inner + ([RParenTok] + rest));
      ExprParses(e, [RParenTok] + rest);
      ParenthesesAddNoNode(inner + ([RParenTok] + rest), e, rest);
    } else {
      AtomParses(e, rest);
    }
  }

  /** Parsing the tokens of an expression gives the expression back and stops where it ends. */
  lemma {:induction false} ExprParses(e: Expr, rest: seq<Token>)
    requires EndsExpr(rest)
    ensures ParseExpr(ExprTokens(e) + rest) == Success(Parsed(e, rest))
    decreases e, 0
  {
    match e
    case BinOp(op, l, r) =>
      var a := OperandTokens(l);
      var c := OperandTokens(r);
      var r1 := [OpToken(op)] + (c + rest);
      var toks := ExprTokens(e) + rest;
      assert toks == a + r1;
      OperandParses(l, r1);
      OperandParses(r, rest);
      if IsAdditive(op) {
        TermIsFactor(toks, l, r1);
        ExprStep(toks, l, r1);
        TermIsFactor(c + rest, r, rest);
        ExprTailStep(l, op, c + rest, r, rest);
        ExprTailStops(e, rest);
      } else {
        TermStep(toks, l, r1);
        TermTailStep(l, op, c + rest, r, rest);
        TermTailStops(e, rest);
        ExprStep(toks, e, rest);
        ExprTailStops(e, rest);
      }
    case _ =>
      var toks := ExprTokens(e) + rest;
      AtomParses(e, rest);
      TermIsFactor(toks, e, rest);
      ExprStep(toks, e, rest);
      ExprTailStops(e, rest);
  }

  // ---------------------------------------------------------------------------
  // Statements and programs

  /** Consuming the kind of the first token takes exactly that token. */
  lemma ConsumeHead(t: Token, rest: seq<Token>)
    ensures Consume([t] + rest, t.Kind()) == Success(Parsed(t, rest))
  {
    assert ([t] + rest)[1..] == rest;
  }

  lemma AssignParses(x: string, e: Expr, rest: seq<Token>)
    ensures ParseAssign(StmtTokens(Assign(x, e)) + rest) == Success(Parsed(Assign(x, e), rest))
  {
    var t2 := ExprTokens(e) + ([SemiTok] + rest);
    calc {
      ParseAssign(StmtTokens(Assign(x, e)) + rest);
      { assert StmtTokens(Assign(x, e)) + rest == [IdTok(x)] + ([EqTok] + t2); }
      ParseAssign([IdTok(x)] + ([EqTok] + t2));
      { AssignSteps(x, e, rest); }
      Success(Parsed(Assign(x, e), rest));
    }
  }

  lemma AssignSteps(x: string, e: Expr, rest: seq<Token>)
    ensures ParseAssign([IdTok(x)] + ([EqTok] + (ExprTokens(e) + ([SemiTok] + rest))))
      == Success(Parsed(Assign(x, e), rest))
  {
    ExprParses(e, [SemiTok] + rest);
    AssignAfterExpr(x, ExprTokens(e) + ([SemiTok] + rest), e, rest);
  }

  lemma AssignAfterExpr(x: string, t2: seq<Token>, e: Expr, rest: seq<Token>)
    requires ParseExpr(t2) == Success(Parsed(e, [SemiTok] + rest))
    ensures ParseAssign([IdTok(x)] + ([EqTok] + t2)) == Success(Parsed(Assign(x, e), rest))
  {
    ConsumeHead(IdTok(x), [EqTok] + t2);
    ConsumeHead(EqTok, t2);
    ConsumeHead(SemiTok, rest);
  }


  lemma PrintParses(e: Expr, rest: seq<Token>)
    ensures ParsePrint(StmtTokens(Print(e)) + rest) == Success(Parsed(Print(e), rest))
  {
    var t1 := ExprTokens(e) + ([SemiTok] + rest);
    calc {
      ParsePrint(StmtTokens(Print(e)) + rest);
      { assert StmtTokens(Print(e)) + rest == [PrintTok] + t1; }
      ParsePrint([PrintTok] + t1);
      { PrintSteps(e, rest); }
      Success(Parsed(Print(e), rest));
    }
  }

  lemma PrintSteps(e: Expr, rest: seq<Token>)
    ensures ParsePrint([PrintTok] + (ExprTokens(e) + ([SemiTok] + rest))) == Success(Parsed(Print(e), rest))
  {
    ExprParses(e, [SemiTok] + rest);
    PrintAfterExpr(ExprTokens(e) + ([SemiTok] + rest), e, rest);
  }

  lemma PrintAfterExpr(t1: seq<Token>, e: Expr, rest: seq<Token>)
    requires ParseExpr(t1) == Success(Parsed(e, [SemiTok] + rest))
    ensures ParsePrint([PrintTok] + t1) == Success(Parsed(Print(e), rest))
  {
    ConsumeHead(PrintTok, t1);
    ConsumeHead(SemiTok, rest);
  }


  lemma ReturnParses(e: Expr, rest: seq<Token>)
    ensures ParseReturn(StmtTokens(Return(e)) + rest) == Success(Parsed(Return(e), rest))
  {
    var t1 := ExprTokens(e) + ([SemiTok] + rest);
    calc {
      ParseReturn(StmtTokens(Return(e)) + rest);
      { assert StmtTokens(Return(e)) + rest == [ReturnTok] + t1; }
      ParseReturn([ReturnTok] + t1);
      { ReturnSteps(e, rest); }
      Success(Parsed(Return(e), rest));
    }
  }

  lemma ReturnSteps(e: Expr, rest: seq<Token>)
    ensures ParseReturn([ReturnTok] + (ExprTokens(e) + ([SemiTok] + rest))) == Success(Parsed(Return(e), rest))
  {
    ExprParses(e, [SemiTok] + rest);
    ReturnAfterExpr(ExprTokens(e) + ([SemiTok] + rest), e, rest);
  }

  lemma ReturnAfterExpr(t1: seq<Token>, e: Expr, rest: seq<Token>)
    requires ParseExpr(t1) == Success(Parsed(e, [SemiTok] + rest))
    ensures ParseReturn([ReturnTok] + t1) == Success(Parsed(Return(e), rest))
  {
    ConsumeHead(ReturnTok, t1);
    ConsumeHead(SemiTok, rest);
  }


  lemma ReadParses(t: IdToken, rest: seq<Token>)
    ensures ParseRead(StmtTokens(Read(t)) + rest) == Success(Parsed(Read(t), rest))
  {
    var toks := StmtTokens(Read(t)) + rest;
    assert toks[1..] == [t, SemiTok] + rest;
    assert toks[1..][1..] == [SemiTok] + rest;
  }

  /** After its condition, a `while` continues with the loop body. */
  lemma WhileStep(t1: seq<Token>, c: Expr, r: seq<Token>)
    requires ParseExpr(t1) == Success(Parsed(c, r))
    ensures ParseWhile([WhileTok] + t1) == ParseLoopBody(c, r)
  {
    ConsumeHead(WhileTok, t1);
  }

  lemma LoopBodySteps(c: Expr, m: seq<Token>, body: seq<Stmt>, rest: seq<Token>)
    requires ParseStmts(m) == Success(Parsed(body, [DoneTok] + rest))
    ensures ParseLoopBody(c, [DoTok] + m) == Success(Parsed(While(c, body), rest))
  {
    ConsumeHead(DoTok, m);
    ConsumeHead(DoneTok, rest);
  }

  lemma {:induction false} WhileParses(c: Expr, body: seq<Stmt>, rest: seq<Token>)
    ensures ParseWhile(StmtTokens(While(c, body)) + rest) == Success(Parsed(While(c, body), rest))
    decreases body, 1
  {
    var m := StmtsTokens(body) + ([DoneTok] + rest);
    var t1 := ExprTokens(c) + ([DoTok] + m);
    calc {
      ParseWhile(StmtTokens(While(c, body)) + rest);
      { assert StmtTokens(While(c, body)) + rest == [WhileTok] + t1; }
      ParseWhile([WhileTok] + t1);
      { ExprParses(c, [DoTok] + m);
        WhileStep(t1, c, [DoTok] + m); }
      ParseLoopBody(c, [DoTok] + m);
      { StmtsParse(body, [DoneTok] + rest);
        LoopBodySteps(c, m, body, rest); }
      Success(Parsed(While(c, body), rest));
    }
  }

  lemma {:induction false} StmtParses(s: Stmt, rest: seq<Token>)
    ensures ParseStmt(StmtTokens(s) + rest) == Success(Parsed(s, rest))
    decreases s
  {
    var toks := StmtTokens(s) + rest;
    match s
    case Assign(x, e) =>
      calc {
        ParseStmt(toks);
        { assert toks[0] == IdTok(x); }
        ParseAssign(toks);
        { AssignParses(x, e, rest); }
        Success(Parsed(s, rest));
      }
    case Print(e) =>
      calc {
        ParseStmt(toks);
        { assert toks[0] == PrintTok; }
        ParsePrint(toks);
        { PrintParses(e, rest); }
        Success(Parsed(s, rest));
      }
    case Return(e) =>
      calc {
        ParseStmt(toks);
        { assert toks[0] == ReturnTok; }
        ParseReturn(toks);
        { ReturnParses(e, rest); }
        Success(Parsed(s, rest));
      }
    case Read(t) =>
      calc {
        ParseStmt(toks);
        { assert toks[0] == ReadTok; }
        ParseRead(toks);
        { ReadParses(t, rest); }
        Success(Parsed(s, rest));
      }
    case While(c, body) =>
      calc {
        ParseStmt(toks);
        { assert toks[0] == WhileTok; }
        ParseWhile(toks);
        { WhileParses(c, body, rest); }
        Success(Parsed(s, rest));
      }
  }

  lemma StmtTokensStartStmt(s: Stmt, rest: seq<Token>)
    ensures StartsStmt(Peek(StmtTokens(s) + rest))
    ensures Peek(StmtTokens(s) + rest) != Some(VAR)
  {
  }

  lemma StmtsStep(toks: seq<Token>, s: Stmt, r: seq<Token>, ss: seq<Stmt>, rest: seq<Token>)
    requires StartsStmt(Peek(toks))
    requires ParseStmt(toks) == Success(Parsed(s, r))
    requires ParseStmts(r) == Success(Parsed(ss, rest))
    ensures ParseStmts(toks) == Success(Parsed([s] + ss, rest))
  {
  }

  /** Parsing printed statements gives them back; the loop stops at a token that starts no statement. */
  lemma {:induction false} StmtsParse(ss: seq<Stmt>, rest: seq<Token>)
    requires !StartsStmt(Peek(rest))
    ensures ParseStmts(StmtsTokens(ss) + rest) == Success(Parsed(ss, rest))
    decreases ss, 0
  {
    if ss == [] {
      assert StmtsTokens(ss) + rest == rest;
    } else {
      var tail := StmtsTokens(ss[1..]) + rest;
      calc {
        ParseStmts(StmtsTokens(ss) + rest);
        { assert StmtsTokens(ss) + rest == StmtTokens(ss[0]) + tail; }
        ParseStmts(StmtTokens(ss[0]) + tail);
        { StmtParses(ss[0], tail);
          StmtsParse(ss[1..], rest);
          StmtTokensStartStmt(ss[0], tail);
          StmtsStep(StmtTokens(ss[0]) + tail, ss[0], tail, ss[1..], rest); }
        Success(Parsed([ss[0]] + ss[1..], rest));
        { assert [ss[0]] + ss[1..] == ss; }
        Success(Parsed(ss, rest));
      }
    }
  }

  lemma DeclParses(d: Ast.Decl, tail: seq<Token>)
    ensures ParseDecl(DeclTokens(d) + tail) == Success(Parsed(d, tail))
  {
    var nested := [VarTok] + ([IdTok(d.name)] + ([ColonTok] + ([TypeTok(d.ty)] + ([SemiTok] + tail))));
    calc {
      ParseDecl(DeclTokens(d) + tail);
      { assert DeclTokens(d) + tail == nested; }
      ParseDecl(nested);
      { DeclSteps(d, tail); }
      Success(Parsed(d, tail));
    }
  }

  lemma DeclSteps(d: Ast.Decl, tail: seq<Token>)
    ensures ParseDecl([VarTok] + ([IdTok(d.name)] + ([ColonTok] + ([TypeTok(d.ty)] + ([SemiTok] + tail)))))
      == Success(Parsed(d, tail))
  {
    var t4 := [SemiTok] + tail;
    var t3 := [TypeTok(d.ty)] + t4;
    var t2 := [ColonTok] + t3;
    var t1 := [IdTok(d.name)] + t2;
    ConsumeHead(VarTok, t1);
    ConsumeHead(IdTok(d.name), t2);
    ConsumeHead(ColonTok, t3);
    ConsumeHead(TypeTok(d.ty), t4);
    ConsumeHead(SemiTok, tail);
  }

  lemma DeclsStep(toks: seq<Token>, d: Ast.Decl, r: seq<Token>, ds: seq<Ast.Decl>, rest: seq<Token>)
    requires Peek(toks) == Some(VAR)
    requires ParseDecl(toks) == Success(Parsed(d, r))
    requires ParseDecls(r) == Success(Parsed(ds, rest))
    ensures ParseDecls(toks) == Success(Parsed([d] + ds, rest))
  {
  }

  lemma {:induction false} DeclsParse(ds: seq<Ast.Decl>, rest: seq<Token>)
    requires Peek(rest) != Some(VAR)
    ensures ParseDecls(DeclsTokens(ds) + rest) == Success(Parsed(ds, rest))
  {
    if ds == [] {
      assert DeclsTokens(ds) + rest == rest;
    } else {
      var tail := DeclsTokens(ds[1..]) + rest;
      calc {
        ParseDecls(DeclsTokens(ds) + rest);
        { assert DeclsTokens(ds) + rest == DeclTokens(ds[0]) + tail; }
        ParseDecls(DeclTokens(ds[0]) + tail);
        { assert (DeclTokens(ds[0]) + tail)[0] == VarTok;
          DeclParses(ds[0], tail);
          DeclsParse(ds[1..], rest);
          DeclsStep(DeclTokens(ds[0]) + tail, ds[0], tail, ds[1..], rest); }
        Success(Parsed([ds[0]] + ds[1..], rest));
        { assert [ds[0]] + ds[1..] == ds; }
        Success(Parsed(ds, rest));
      }
    }
  }


  lemma ProgramStep(toks: seq<Token>, ds: seq<Ast.Decl>, m: seq<Token>, ss: seq<Stmt>, rest: seq<Token>)
    requires ParseDecls(toks) == Success(Parsed(ds, m))
    requires ParseStmts(m) == Success(Parsed(ss, rest))
    ensures ParseProgram(toks) == Success(Parsed(Program(ds, ss), rest))
    ensures Parse(toks) == Success(Program(ds, ss))
  {
  }

  /**
   * Parsing a printed program gives the program back. The tokens after it are
   * left unconsumed: they may be anything that starts no statement, and even a
   * `var` once at least one statement has been read.
   */
  lemma ProgramParses(p: Program, rest: seq<Token>)
    requires !StartsStmt(Peek(rest))
    requires p.stmts == [] ==> Peek(rest) != Some(VAR)
    ensures ParseProgram(ProgramTokens(p) + rest) == Success(Parsed(p, rest))
    ensures Parse(ProgramTokens(p) + rest) == Success(p)
  {
    var tail := StmtsTokens(p.stmts) + rest;
    assert ProgramTokens(p) + rest == DeclsTokens(p.decls) + tail;
    if p.stmts != [] {
      assert tail == StmtTokens(p.stmts[0]) + (StmtsTokens(p.stmts[1..]) + rest);
      StmtTokensStartStmt(p.stmts[0], StmtsTokens(p.stmts[1..]) + rest);
    } else {
      assert tail == rest;
    }
    DeclsParse(p.decls, tail);
    StmtsParse(p.stmts, rest);
    ProgramStep(ProgramTokens(p) + rest, p.decls, tail, p.stmts, rest);
  }

  /** Trailing tokens that cannot continue the program do not change the parse. */
  lemma TrailingTokensIgnored(p: Program, rest: seq<Token>)
    requires !StartsStmt(Peek(rest))
    requires p.stmts == [] ==> Peek(rest) != Some(VAR)
    ensures Parse(ProgramTokens(p) + rest) == Parse(ProgramTokens(p))
  {
    ProgramParses(p, rest);
    ProgramParses(p, []);
    assert ProgramTokens(p) + [] == ProgramTokens(p);
  }

  // ---------------------------------------------------------------------------
  // Associativity and precedence

  predicate IsAtom(e: Expr) {
    !e.BinOp?
  }

  /** ((acc op1 e1) op2 e2) ... : the tree a left fold builds. */
  function FoldLeft(acc: Expr, chain: seq<(Op, Expr)>): (r: Expr)
    decreases |chain|
  {
    if chain == [] then acc else FoldLeft(BinOp(chain[0].0, acc, chain[0].1), chain[1..])
  }

  /** op1 e1 op2 e2 ... written out without parentheses. */
  function ChainTokens(chain: seq<(Op, Expr)>): (r: seq<Token>) {
    if chain == [] then [] else [OpToken(chain[0].0)] + ExprTokens(chain[0].1) + ChainTokens(chain[1..])
  }

  /** An additive chain never starts with a multiplicative operator, so the term before it ends. */
  lemma ChainEndsTerm(chain: seq<(Op, Expr)>, rest: seq<Token>)
    requires forall i :: 0 <= i < |chain| ==> IsAdditive(chain[i].0)
    requires EndsExpr(rest)
    ensures !IsMulOp(Peek(ChainTokens(chain) + rest))
  {
    if chain == [] {
      assert ChainTokens(chain) + rest == rest;
    }
  }

  lemma {:induction false} AdditiveChainFolds(acc: Expr, chain: seq<(Op, Expr)>, rest: seq<Token>)
    requires forall i :: 0 <= i < |chain| ==> IsAdditive(chain[i].0) && IsAtom(chain[i].1)
    requires EndsExpr(rest)
    ensures ParseExprTail(acc, ChainTokens(chain) + rest) == Success(Parsed(FoldLeft(acc, chain), rest))
    decreases |chain|
  {
    if chain == [] {
      assert ChainTokens(chain) + rest == rest;
      ExprTailStops(acc, rest);
    } else {
      var (op, e) := chain[0];
      var tail := ChainTokens(chain[1..]) + rest;
      assert ChainTokens(chain) + rest == [OpToken(op)] + (ExprTokens(e) + tail);
      AtomParses(e, tail);
      ChainEndsTerm(chain[1..], rest);
      TermIsFactor(ExprTokens(e) + tail, e, tail);
      ExprTailStep(acc, op, ExprTokens(e) + tail, e, tail);
      AdditiveChainFolds(BinOp(op, acc, e), chain[1..], rest);
    }
  }

  lemma {:induction false} MultiplicativeChainFolds(acc: Expr, chain: seq<(Op, Expr)>, rest: seq<Token>)
    requires forall i :: 0 <= i < |chain| ==> !IsAdditive(chain[i].0) && IsAtom(chain[i].1)
    requires !IsMulOp(Peek(rest))
    ensures ParseTermTail(acc, ChainTokens(chain) + rest) == Success(Parsed(FoldLeft(acc, chain), rest))
    decreases |chain|
  {
    if chain == [] {
      assert ChainTokens(chain) + rest == rest;
      TermTailStops(acc, rest);
    } else {
      var (op, e) := chain[0];
      var tail := ChainTokens(chain[1..]) + rest;
      assert ChainTokens(chain) + rest == [OpToken(op)] + (ExprTokens(e) + tail);
      AtomParses(e, tail);
      TermTailStep(acc, op, ExprTokens(e) + tail, e, tail);
      MultiplicativeChainFolds(BinOp(op, acc, e), chain[1..], rest);
    }
  }

  /** `a - b - c` and `a + b - c` fold to the left: ((a op b) op c). */
  lemma AdditiveOperatorsAssociateLeft(a: Expr, chain: seq<(Op, Expr)>, rest: seq<Token>)
    requires IsAtom(a)
    requires forall i :: 0 <= i < |chain| ==> IsAdditive(chain[i].0) && IsAtom(chain[i].1)
    requires EndsExpr(rest)
    ensures ParseExpr(ExprTokens(a) + ChainTokens(chain) + rest) == Success(Parsed(FoldLeft(a, chain), rest))
  {
    var tail := ChainTokens(chain) + rest;
    var toks := ExprTokens(a) + tail;
    assert ExprTokens(a) + ChainTokens(chain) + rest == toks;
    AtomParses(a, tail);
    ChainEndsTerm(chain, rest);
    TermIsFactor(toks, a, tail);
    ExprStep(toks, a, tail);
    AdditiveChainFolds(a, chain, rest);
  }

  /** `*`, `/`, `>` and `<` share one level and also fold to the left. */
  lemma MultiplicativeOperatorsAssociateLeft(a: Expr, chain: seq<(Op, Expr)>, rest: seq<Token>)
    requires IsAtom(a)
    requires forall i :: 0 <= i < |chain| ==> !IsAdditive(chain[i].0) && IsAtom(chain[i].1)
    requires EndsExpr(rest)
    ensures ParseExpr(ExprTokens(a) + ChainTokens(chain) + rest) == Success(Parsed(FoldLeft(a, chain), rest))
  {
    var tail := ChainTokens(chain) + rest;
    var toks := ExprTokens(a) + tail;
    assert ExprTokens(a) + ChainTokens(chain) + rest == toks;
    AtomParses(a, tail);
    TermStep(toks, a, tail);
    MultiplicativeChainFolds(a, chain, rest);
    ExprStep(toks, FoldLeft(a, chain), rest);
    ExprTailStops(FoldLeft(a, chain), rest);
  }

  /** `a op b` at the multiplicative level is one term. */
  lemma MulPairIsTerm(a: Expr, b: Expr, mul: Op, rest: seq<Token>)
    requires IsAtom(a) && IsAtom(b) && !IsAdditive(mul)
    requires !IsMulOp(Peek(rest))
    ensures ParseTerm(ExprTokens(a) + ([OpToken(mul)] + (ExprTokens(b) + rest))) == Success(Parsed(BinOp(mul, a, b), rest))
  {
    var r1 := [OpToken(mul)] + (ExprTokens(b) + rest);
    AtomParses(a, r1);
    AtomParses(b, rest);
    TermStep(ExprTokens(a) + r1, a, r1);
    TermTailStep(a, mul, ExprTokens(b) + rest, b, rest);
    TermTailStops(BinOp(mul, a, b), rest);
  }

  /** A multiplicative-level operator (including `<` and `>`) binds tighter on its right: `a + b < c` is `a + (b < c)`. */
  /** Two binary operators written out, grouped to the right. */
  lemma Regroup(a: seq<Token>, o1: Token, b: seq<Token>, o2: Token, c: seq<Token>, rest: seq<Token>)
    ensures a + [o1] + b + [o2] + c + rest == a + ([o1] + (b + ([o2] + (c + rest))))
  {
    AppendAssoc(a + [o1] + b + [o2], c, rest);
    AppendAssoc(a + [o1] + b, [o2], c + rest);
    AppendAssoc(a + [o1], b, [o2] + (c + rest));
    AppendAssoc(a, [o1], b + ([o2] + (c + rest)));
  }

  lemma AppendAssoc(a: seq<Token>, b: seq<Token>, c: seq<Token>)
    ensures a + b + c == a + (b + c)
  {
  }

  lemma MultiplicativeBindsTighterRight(a: Expr, b: Expr, c: Expr, add: Op, mul: Op, rest: seq<Token>)
    requires IsAtom(a) && IsAtom(b) && IsAtom(c)
    requires IsAdditive(add) && !IsAdditive(mul)
    requires EndsExpr(rest)
    ensures ParseExpr(ExprTokens(a) + [OpToken(add)] + ExprTokens(b) + [OpToken(mul)] + ExprTokens(c) + rest)
            == Success(Parsed(BinOp(add, a, BinOp(mul, b, c)), rest))
  {
    var r2 := ExprTokens(b) + ([OpToken(mul)] + (ExprTokens(c) + rest));
    var toks := ExprTokens(a) + ([OpToken(add)] + r2);
    calc {
      ParseExpr(ExprTokens(a) + [OpToken(add)] + ExprTokens(b) + [OpToken(mul)] + ExprTokens(c) + rest);
      { Regroup(ExprTokens(a), OpToken(add), ExprTokens(b), OpToken(mul), ExprTokens(c), rest); }
      ParseExpr(toks);
      { AddThenMulParses(a, b, c, add, mul, rest); }
      Success(Parsed(BinOp(add, a, BinOp(mul, b, c)), rest));
    }
  }

  lemma AddThenMulParses(a: Expr, b: Expr, c: Expr, add: Op, mul: Op, rest: seq<Token>)
    requires IsAtom(a) && IsAtom(b) && IsAtom(c)
    requires IsAdditive(add) && !IsAdditive(mul)
    requires EndsExpr(rest)
    ensures ParseExpr(ExprTokens(a) + ([OpToken(add)] + (ExprTokens(b) + ([OpToken(mul)] + (ExprTokens(c) + rest)))))
            == Success(Parsed(BinOp(add, a, BinOp(mul, b, c)), rest))
  {
    var r2 := ExprTokens(b) + ([OpToken(mul)] + (ExprTokens(c) + rest));
    var r1 := [OpToken(add)] + r2;
    var toks := ExprTokens(a) + r1;
    AtomParses(a, r1);
    TermIsFactor(toks, a, r1);
    ExprStep(toks, a, r1);
    MulPairIsTerm(b, c, mul, rest);
    ExprTailStep(a, add, r2, BinOp(mul, b, c), rest);
    ExprTailStops(BinOp(add, a, BinOp(mul, b, c)), rest);
  }


  /** ... and on its left: `a < b + c` is `(a < b) + c`. */
  lemma MultiplicativeBindsTighterLeft(a: Expr, b: Expr, c: Expr, add: Op, mul: Op, rest: seq<Token>)
    requires IsAtom(a) && IsAtom(b) && IsAtom(c)
    requires IsAdditive(add) && !IsAdditive(mul)
    requires EndsExpr(rest)
    ensures ParseExpr(ExprTokens(a) + [OpToken(mul)] + ExprTokens(b) + [OpToken(add)] + ExprTokens(c) + rest)
            == Success(Parsed(BinOp(add, BinOp(mul, a, b), c), rest))
  {
    var toks := ExprTokens(a) + ([OpToken(mul)] + (ExprTokens(b) + ([OpToken(add)] + (ExprTokens(c) + rest))));
    calc {
      ParseExpr(ExprTokens(a) + [OpToken(mul)] + ExprTokens(b) + [OpToken(add)] + ExprTokens(c) + rest);
      { Regroup(ExprTokens(a), OpToken(mul), ExprTokens(b), OpToken(add), ExprTokens(c), rest); }
      ParseExpr(toks);
      { MulThenAddParses(a, b, c, add, mul, rest); }
      Success(Parsed(BinOp(add, BinOp(mul, a, b), c), rest));
    }
  }

  lemma MulThenAddParses(a: Expr, b: Expr, c: Expr, add: Op, mul: Op, rest: seq<Token>)
    requires IsAtom(a) && IsAtom(b) && IsAtom(c)
    requires IsAdditive(add) && !IsAdditive(mul)
    requires EndsExpr(rest)
    ensures ParseExpr(ExprTokens(a) + ([OpToken(mul)] + (ExprTokens(b) + ([OpToken(add)] + (ExprTokens(c) + rest)))))
            == Success(Parsed(BinOp(add, BinOp(mul, a, b), c), rest))
  {
    var r3 := ExprTokens(c) + rest;
    var r2 := [OpToken(add)] + r3;
    var toks := ExprTokens(a) + ([OpToken(mul)] + (ExprTokens(b) + r2));
    MulPairIsTerm(a, b, mul, r2);
    ExprStep(toks, BinOp(mul, a, b), r2);
    AtomParses(c, rest);
    TermIsFactor(r3, c, rest);
    ExprTailStep(BinOp(mul, a, b), add, r3, c, rest);
    ExprTailStops(BinOp(add, BinOp(mul, a, b), c), rest);
  }


  /** Parentheses produce no node: `( e )` parses to the tree of `e`. */
  lemma ParenthesesAddNoNode(toks: seq<Token>, e: Expr, rest: seq<Token>)
    requires ParseExpr(toks) == Success(Parsed(e, [RParenTok] + rest))
    ensures ParseFactor([LParenTok] + toks) == Success(Parsed(e, rest))
  {
    ConsumeHead(LParenTok, toks);
    ConsumeHead(RParenTok, rest);
  }


  /** `read` needs an identifier and then `;`, and keeps the whole identifier token. */
  lemma ReadStatementShape(rest: seq<Token>)
    ensures ParseRead([ReadTok] + rest).Success?
            <==> |rest| >= 2 && rest[0].IdTok? && rest[1] == SemiTok
    ensures ParseRead([ReadTok] + rest).Success?
            ==> ParseRead([ReadTok] + rest).value == Parsed(Read(rest[0]), rest[2..])
  {
    ConsumeHead(ReadTok, rest);
    if |rest| > 0 && rest[0].IdTok? {
      ConsumeHead(rest[0], rest[1..]);
      assert rest[1..] == [] || rest[1..][0] == rest[1];
    }
  }

  /** A `while` succeeds only if its condition parses, and then the loop body decides. */
  lemma WhileStatementShape(rest: seq<Token>)
    ensures ParseWhile([WhileTok] + rest).Success? ==>
      && ParseExpr(rest).Success?
      && ParseWhile([WhileTok] + rest) == ParseLoopBody(ParseExpr(rest).value.value, ParseExpr(rest).value.rest)
  {
    ConsumeHead(WhileTok, rest);
    var e := ParseExpr(rest);
    if e.Success? {
      assert ParseWhile([WhileTok] + rest) == ParseLoopBody(e.value.value, e.value.rest);
    }
  }

  /** The loop body needs `do` before its statements and `done` after them. */
  lemma LoopBodyShape(c: Expr, toks: seq<Token>)
    ensures ParseLoopBody(c, toks).Success? ==>
      && Peek(toks) == Some(DO)
      && var body := ParseStmts(toks[1..]);
      && body.Success?
      && Peek(body.value.rest) == Some(DONE)
      && ParseLoopBody(c, toks).value == Parsed(While(c, body.value.value), body.value.rest[1..])
  {
  }
}
