/**
 * Flattening typed trees into straight-line instructions, shared by the C
 * generator and the three-address-code generator. Both walk the tree the same
 * way and draw temporaries from a counter; they differ only in how an
 * instruction is printed (see Render) and in `return`, which the C generator
 * drops. The generators print as they go, so a failure keeps the instructions
 * printed before it.
 */
module Lowering {
  import opened Tokens
  import opened Errors
  import opened Ast
  import opened SymbolTable

  datatype Backend = C | Tac

  /** Where a value lives: the k-th temporary, or a program variable. */
  datatype Loc = Temp(k: nat) | Var(name: string)

  datatype Lit = IntL(value: nat) | FloatL(lexeme: FloatLexeme)

  /** One printed line of output. */
  datatype Instr =
    | Include
    | MainOpen
    | VarDecl(ty: Type, name: string)
    | LitDef(ty: Type, dst: Loc, lit: Lit)
    | BinDef(ty: Type, dst: Loc, lhs: Loc, op: Op, rhs: Loc)
    | Copy(target: string, src: Loc)
    | Printf(flag: char, src: Loc)
    | Scanf(flag: char, name: string)
    | WhileOpen(guard: Loc)
    | ReturnOf(src: Loc)
    | Close

  /** The code for an expression, where its value ends up, and the counter afterwards. */
  datatype Flat = Flat(code: seq<Instr>, loc: Loc, next: nat)

  /** The code for statements, the counter afterwards, and the error that stopped it, if any. */
  datatype Emission = Emission(code: seq<Instr>, next: nat, failure: Option<Error>)

  /** A location name Python treats as true: any temporary, any non-empty variable name. */
  predicate Truthy(l: Loc) {
    l.Temp? || l.name != ""
  }

  /** The scanf/printf conversion for a type: `d` for int, `f` otherwise. */
  function Flag(t: Type): (c: char)
    ensures c == 'd' <==> t == Int
    ensures c == 'f' <==> t == Float
  {
    match t
    case Int => 'd'
    case Float => 'f'
  }

  /** The locations an instruction assigns. */
  function Dst(i: Instr): (r: Option<Loc>) {
    match i
    case LitDef(_, d, _) => Some(d)
    case BinDef(_, d, _, _, _) => Some(d)
    case Copy(x, _) => Some(Var(x))
    case _ => None
  }

  /** The locations one instruction assigns, as a list of zero or one. */
  function DstList(i: Instr): (r: seq<Loc>) {
    if Dst(i).Some? then [Dst(i).value] else []
  }

  /** Every location the code assigns, in order. */
  function Defs(code: seq<Instr>): (r: seq<Loc>) {
    if code == [] then [] else DstList(code[0]) + Defs(code[1..])
  }

  /** Temp(n + 1), ..., Temp(m): the temporaries drawn while the counter moves from n to m. */
  function TempsBetween(n: nat, m: nat): (r: seq<Loc>)
    requires n <= m
    ensures |r| == m - n && forall i :: 0 <= i < |r| ==> r[i] == Temp(n + 1 + i)
    decreases m - n
  {
    if n == m then [] else [Temp(n + 1)] + TempsBetween(n + 1, m)
  }

  /** How many temporaries an expression needs: one per literal and one per operator. */
  function TempCount(e: TExpr): (r: nat) {
    match e
    case TIntLit(_, _) => 1
    case TFloatLit(_, _) => 1
    case TId(_, _) => 0
    case TBinOp(_, l, r, _) => TempCount(l) + TempCount(r) + 1
  }

  predicate IsLiteral(e: TExpr) {
    e.TIntLit? || e.TFloatLit?
  }

  function LitOf(e: TExpr): (r: Lit)
    requires IsLiteral(e)
  {
    if e.TIntLit? then IntL(e.value) else FloatL(e.lexeme)
  }

  /**
   * gen_expr: a literal is stored into the supplied location, or into a new
   * temporary when none (or an empty name) is supplied; an identifier is its
   * own location and needs no code; an operator evaluates the left operand,
   * then the right, then combines them into a new temporary, ignoring any
   * supplied location.
   */
  function GenExpr(e: TExpr, into: Option<Loc>, n: nat): (r: Flat)
    ensures n <= r.next
    ensures into.None? ==> r.next == n + TempCount(e)
    ensures into.None? && !e.TId? ==> r.loc == Temp(r.next)
  {
    match e
    case TIntLit(v, t) =>
      if into.Some? && Truthy(into.value) then Flat([LitDef(t, into.value, IntL(v))], into.value, n)
      else Flat([LitDef(t, Temp(n + 1), IntL(v))], Temp(n + 1), n + 1)
    case TFloatLit(f, t) =>
      if into.Some? && Truthy(into.value) then Flat([LitDef(t, into.value, FloatL(f))], into.value, n)
      else Flat([LitDef(t, Temp(n + 1), FloatL(f))], Temp(n + 1), n + 1)
    case TId(x, _) => Flat([], Var(x), n)
    case TBinOp(op, l, r, t) =>
      var fl := GenExpr(l, None, n);
      var fr := GenExpr(r, None, fl.next);
      Flat(fl.code + fr.code + [BinDef(t, Temp(fr.next + 1), fl.loc, op, fr.loc)], Temp(fr.next + 1), fr.next + 1)
  }

  /**
   * gen_stmt. An assignment to an undeclared variable fails before any code
   * for its right-hand side; a `read` of an undeclared variable fails on the
   * table lookup; the C generator has no case for `return` and emits nothing;
   * a loop evaluates its condition into a guard, emits the body, re-runs the
   * condition's code with the guard as the suggested location, and closes.
   */
  function GenStmt(b: Backend, st: SymTab, s: TStmt, n: nat): (r: Emission)
    ensures n <= r.next
    decreases s, 0
  {
    match s
    case TAssign(x, e) =>
      if x !in st then Emission([], n, Some(UndeclaredVariable(x)))
      else
        var f := GenExpr(e, None, n);
        Emission(f.code + [Copy(x, f.loc)], f.next, None)
    case TPrint(e) =>
      var f := GenExpr(e, None, n);
      Emission(f.code + [Printf(Flag(e.ty), f.loc)], f.next, None)
    case TReturn(e) =>
      if b == C then Emission([], n, None)
      else
        var f := GenExpr(e, None, n);
        Emission(f.code + [ReturnOf(f.loc)], f.next, None)
    case TRead(t) =>
      if t.name !in st then Emission([], n, Some(UndeclaredVariable(t.name)))
      else Emission([Scanf(Flag(st[t.name]), t.name)], n, None)
    case TWhile(c, body) =>
      var f := GenExpr(c, None, n);
      var eb := GenStmts(b, st, body, f.next);
      if eb.failure.Some? then Emission(f.code + [WhileOpen(f.loc)] + eb.code, eb.next, eb.failure)
      else
        var g := GenExpr(c, Some(f.loc), eb.next);
        Emission(f.code + [WhileOpen(f.loc)] + eb.code + g.code + [Close], g.next, None)
  }

  /** The statements in order; the first failure stops generation, keeping what was printed. */
  function GenStmts(b: Backend, st: SymTab, ss: seq<TStmt>, n: nat): (r: Emission)
    ensures n <= r.next
    decreases ss, 1
  {
    if ss == [] then Emission([], n, None)
    else
      var e1 := GenStmt(b, st, ss[0], n);
      if e1.failure.Some? then e1
      else
        var e2 := GenStmts(b, st, ss[1..], e1.next);
        Emission(e1.code + e2.code, e2.next, e2.failure)
  }

  // ---------------------------------------------------------------------------
  // Which temporaries the code defines

  lemma {:induction false} DefsAppend(a: seq<Instr>, c: seq<Instr>)
    ensures Defs(a + c) == Defs(a) + Defs(c)
    decreases |a|
  {
    if a == [] {
      assert a + c == c;
    } else {
      assert (a + c)[0] == a[0];
      assert (a + c)[1..] == a[1..] + c;
      DefsAppend(a[1..], c);
    }
  }

  lemma DefsSingle(i: Instr)
    ensures Defs([i]) == DstList(i)
  {
    assert [i][1..] == [];
  }

  lemma TempsBetweenAppend(n: nat, m: nat, k: nat)
    requires n <= m <= k
    ensures TempsBetween(n, m) + TempsBetween(m, k) == TempsBetween(n, k)
  {
  }

  lemma DefsOfSequence(a: seq<Instr>, c: seq<Instr>, last: seq<Instr>, n: nat, m: nat, k: nat)
    requires n <= m <= k
    requires Defs(a) == TempsBetween(n, m) && Defs(c) == TempsBetween(m, k)
    requires Defs(last) == [Temp(k + 1)]
    ensures Defs(a + c + last) == TempsBetween(n, k + 1)
  {
    DefsAppend(a + c, last);
    DefsAppend(a, c);
    TempsBetweenAppend(n, m, k);
    TempsBetweenAppend(n, k, k + 1);
  }

  /**
   * Without a suggested location, an expression's code assigns exactly the
   * temporaries it draws, each once, in increasing order, and nothing else.
   */
  lemma {:induction false} GenExprDefinesFreshTemps(e: TExpr, n: nat)
    ensures Defs(GenExpr(e, None, n).code) == TempsBetween(n, GenExpr(e, None, n).next)
    decreases e, 1
  {
    match e
    case TBinOp(op, l, r, t) => BinOpDefinesFreshTemps(op, l, r, t, n);
    case TId(_, _) =>
    case _ => DefsSingle(GenExpr(e, None, n).code[0]);
  }

  lemma {:induction false} BinOpDefinesFreshTemps(op: Op, l: TExpr, r: TExpr, t: Type, n: nat)
    ensures var f := GenExpr(TBinOp(op, l, r, t), None, n);
      Defs(f.code) == TempsBetween(n, f.next)
    decreases TBinOp(op, l, r, t), 0
  {
    var fl := GenExpr(l, None, n);
    var fr := GenExpr(r, None, fl.next);
    var i := BinDef(t, Temp(fr.next + 1), fl.loc, op, fr.loc);
    var f := GenExpr(TBinOp(op, l, r, t), None, n);
    assert f.code == fl.code + fr.code + [i] && f.next == fr.next + 1;
    GenExprDefinesFreshTemps(l, n);
    GenExprDefinesFreshTemps(r, fl.next);
    DefsSingle(i);
    assert Defs([i]) == [Temp(fr.next + 1)];
    DefsOfSequence(fl.code, fr.code, [i], n, fl.next, fr.next);
  }


  /** The value of an expression is found in a temporary it drew, or in the variable it names. */
  lemma GenExprLocation(e: TExpr, n: nat)
    ensures var f := GenExpr(e, None, n);
      if e.TId? then f.loc == Var(e.name) && f.code == []
      else f.loc.Temp? && n < f.loc.k <= f.next
  {
  }

  /**
   * With a suggested location, a literal is stored there and draws nothing;
   * an operator ignores the suggestion and draws fresh temporaries as usual,
   * so the suggested location is left untouched.
   */
  lemma GenExprSuggested(e: TExpr, g: Loc, n: nat)
    requires Truthy(g)
    ensures IsLiteral(e) ==> GenExpr(e, Some(g), n) == Flat([LitDef(e.ty, g, LitOf(e))], g, n)
    ensures e.TBinOp? ==> GenExpr(e, Some(g), n) == GenExpr(e, None, n)
    ensures e.TId? ==> GenExpr(e, Some(g), n) == Flat([], Var(e.name), n)
  {
  }

  /**
   * The loop a `while` becomes: the condition's code, the guard test, the
   * body, the refresh and the closing brace. The refresh re-assigns the guard
   * only when the condition is a literal; for an operator it computes the
   * condition again into new temporaries and the guard keeps its first value.
   */
  lemma WhileLoopShape(b: Backend, st: SymTab, c: TExpr, body: seq<TStmt>, n: nat)
    requires GenStmt(b, st, TWhile(c, body), n).failure.None?
    ensures var f := GenExpr(c, None, n);
      var eb := GenStmts(b, st, body, f.next);
      var refresh := GenExpr(c, Some(f.loc), eb.next);
      && GenStmt(b, st, TWhile(c, body), n).code == f.code + [WhileOpen(f.loc)] + eb.code + refresh.code + [Close]
      && (c.TId? ==> f.loc == Var(c.name) && refresh.code == [])
      && (IsLiteral(c) ==> Defs(refresh.code) == [f.loc])
      && (c.TBinOp? ==> f.loc !in Defs(refresh.code))
  {
    var f := GenExpr(c, None, n);
    var eb := GenStmts(b, st, body, f.next);
    if c.TBinOp? {
      GenExprDefinesFreshTemps(c, eb.next);
    } else if IsLiteral(c) {
      assert Defs(GenExpr(c, Some(f.loc), eb.next).code) == [f.loc] + Defs([]);
    }
  }

  // ---------------------------------------------------------------------------
  // Temporaries across a whole run

  /** Every temporary the code assigns is one of Temp(lo + 1), ..., Temp(hi). */
  predicate TempsIn(code: seq<Instr>, lo: nat, hi: nat) {
    forall l :: l in Defs(code) && l.Temp? ==> lo < l.k <= hi
  }

  lemma JoinTemps(a: seq<Instr>, c: seq<Instr>, lo: nat, hi: nat)
    requires TempsIn(a, lo, hi) && TempsIn(c, lo, hi)
    ensures TempsIn(a + c, lo, hi)
  {
    DefsAppend(a, c);
  }

  /** An instruction that assigns no temporary. */
  lemma NoTemp(i: Instr, lo: nat, hi: nat)
    requires !i.LitDef? && !i.BinDef?
    ensures TempsIn([i], lo, hi)
  {
    DefsSingle(i);
  }

  lemma {:induction false} ExprTempsIn(e: TExpr, n: nat)
    ensures var f := GenExpr(e, None, n);
      TempsIn(f.code, n, f.next)
  {
    var f := GenExpr(e, None, n);
    GenExprDefinesFreshTemps(e, n);
    forall l | l in Defs(f.code) && l.Temp?
      ensures n < l.k <= f.next
    {
      var i :| 0 <= i < |Defs(f.code)| && Defs(f.code)[i] == l;
    }
  }

  /**
   * Each temporary a statement assigns was drawn by that statement: the
   * counter is shared by the whole run, so no statement, loop body or refresh
   * re-assigns a temporary drawn before it.
   */
  lemma {:induction false} GenStmtTempsFresh(b: Backend, st: SymTab, s: TStmt, n: nat)
    ensures var r := GenStmt(b, st, s, n);
      TempsIn(r.code, n, r.next)
    decreases s, 1
  {
    match s
    case TAssign(x, e) =>
      if x in st {
        var f := GenExpr(e, None, n);
        ExprTempsIn(e, n);
        NoTemp(Copy(x, f.loc), n, f.next);
        JoinTemps(f.code, [Copy(x, f.loc)], n, f.next);
      }
    case TPrint(e) =>
      var f := GenExpr(e, None, n);
      ExprTempsIn(e, n);
      NoTemp(Printf(Flag(e.ty), f.loc), n, f.next);
      JoinTemps(f.code, [Printf(Flag(e.ty), f.loc)], n, f.next);
    case TReturn(e) =>
      if b == Tac {
        var f := GenExpr(e, None, n);
        ExprTempsIn(e, n);
        NoTemp(ReturnOf(f.loc), n, f.next);
        JoinTemps(f.code, [ReturnOf(f.loc)], n, f.next);
      }
    case TRead(t) =>
      if t.name in st {
        NoTemp(Scanf(Flag(st[t.name]), t.name), n, n);
      }
    case TWhile(c, body) => WhileTempsFresh(b, st, c, body, n);
  }

  lemma {:induction false} WhileTempsFresh(b: Backend, st: SymTab, c: TExpr, body: seq<TStmt>, n: nat)
    ensures var r := GenStmt(b, st, TWhile(c, body), n);
      TempsIn(r.code, n, r.next)
    decreases TWhile(c, body), 0
  {
    var r := GenStmt(b, st, TWhile(c, body), n);
    var f := GenExpr(c, None, n);
    var eb := GenStmts(b, st, body, f.next);
    ExprTempsIn(c, n);
    GenStmtsTempsFresh(b, st, body, f.next);
    NoTemp(WhileOpen(f.loc), n, r.next);
    JoinTemps(f.code, [WhileOpen(f.loc)], n, r.next);
    JoinTemps(f.code + [WhileOpen(f.loc)], eb.code, n, r.next);
    if eb.failure.None? {
      var g := GenExpr(c, Some(f.loc), eb.next);
      RefreshTempsIn(c, n, eb.next);
      NoTemp(Close, n, r.next);
      JoinTemps(f.code + [WhileOpen(f.loc)] + eb.code, g.code, n, r.next);
      JoinTemps(f.code + [WhileOpen(f.loc)] + eb.code + g.code, [Close], n, r.next);
    }
  }

  /**
   * The refresh at the end of a loop body assigns the guard again when the
   * condition is a literal, and otherwise only temporaries it draws itself.
   */
  lemma RefreshTempsIn(c: TExpr, n: nat, m: nat)
    requires GenExpr(c, None, n).next <= m
    ensures var g := GenExpr(c, Some(GenExpr(c, None, n).loc), m);
      TempsIn(g.code, n, g.next)
  {
    var f := GenExpr(c, None, n);
    var g := GenExpr(c, Some(f.loc), m);
    if IsLiteral(c) {
      DefsSingle(g.code[0]);
    } else if c.TBinOp? {
      GenExprSuggested(c, f.loc, m);
      ExprTempsIn(c, m);
    }
  }

  lemma {:induction false} GenStmtsTempsFresh(b: Backend, st: SymTab, ss: seq<TStmt>, n: nat)
    ensures var r := GenStmts(b, st, ss, n);
      TempsIn(r.code, n, r.next)
    decreases ss, 2
  {
    if ss != [] {
      var e1 := GenStmt(b, st, ss[0], n);
      GenStmtTempsFresh(b, st, ss[0], n);
      if e1.failure.None? {
        var e2 := GenStmts(b, st, ss[1..], e1.next);
        GenStmtsTempsFresh(b, st, ss[1..], e1.next);
        JoinTemps(e1.code, e2.code, n, e2.next);
      }
    }
  }

  /**
   * A loop body never assigns the temporary that holds the guard, nor any
   * temporary the condition drew: its own temporaries all come after them.
   */
  lemma LoopBodyKeepsGuard(b: Backend, st: SymTab, c: TExpr, body: seq<TStmt>, n: nat)
    ensures var f := GenExpr(c, None, n);
      var eb := GenStmts(b, st, body, f.next);
      && TempsIn(f.code, n, f.next)
      && TempsIn(eb.code, f.next, eb.next)
      && (f.loc.Temp? ==> n < f.loc.k <= f.next && f.loc !in Defs(eb.code))
  {
    var f := GenExpr(c, None, n);
    ExprTempsIn(c, n);
    GenStmtsTempsFresh(b, st, body, f.next);
    GenExprLocation(c, n);
  }

  /**
   * Statements generated one after another draw disjoint temporaries: no
   * temporary the first list assigns is assigned again by the second.
   */
  lemma LaterStatementsDrawFresh(b: Backend, st: SymTab, a: seq<TStmt>, c: seq<TStmt>, n: nat)
    requires GenStmts(b, st, a, n).failure.None?
    ensures var ga := GenStmts(b, st, a, n);
      var gc := GenStmts(b, st, c, ga.next);
      && GenStmts(b, st, a + c, n).code == ga.code + gc.code
      && TempsIn(ga.code, n, ga.next)
      && TempsIn(gc.code, ga.next, gc.next)
      && (forall l :: l in Defs(ga.code) && l.Temp? ==> l !in Defs(gc.code))
  {
    var ga := GenStmts(b, st, a, n);
    GenStmtsAppend(b, st, a, c, n);
    GenStmtsTempsFresh(b, st, a, n);
    GenStmtsTempsFresh(b, st, c, ga.next);
  }

  // ---------------------------------------------------------------------------
  // The two backends

  predicate NoReturn(s: TStmt) {
    match s
    case TReturn(_) => false
    case TWhile(_, body) => forall i :: 0 <= i < |body| ==> NoReturn(body[i])
    case _ => true
  }

  /** The generators agree, instruction for instruction, on statements without `return`. */
  lemma {:induction false} BackendsAgree(st: SymTab, s: TStmt, n: nat)
    requires NoReturn(s)
    ensures GenStmt(C, st, s, n) == GenStmt(Tac, st, s, n)
    decreases s, 0
  {
    match s
    case TWhile(c, body) =>
      BackendsAgreeOnAll(st, body, GenExpr(c, None, n).next);
    case _ =>
  }

  lemma {:induction false} BackendsAgreeOnAll(st: SymTab, ss: seq<TStmt>, n: nat)
    requires forall i :: 0 <= i < |ss| ==> NoReturn(ss[i])
    ensures GenStmts(C, st, ss, n) == GenStmts(Tac, st, ss, n)
    decreases ss, 1
  {
    if ss != [] {
      BackendsAgree(st, ss[0], n);
      BackendsAgreeOnAll(st, ss[1..], GenStmt(C, st, ss[0], n).next);
    }
  }

  /** The C generator drops `return` entirely; the TAC generator evaluates the value and returns it. */
  lemma ReturnLowering(st: SymTab, e: TExpr, n: nat)
    ensures GenStmt(C, st, TReturn(e), n) == Emission([], n, None)
    ensures var f := GenExpr(e, None, n);
      GenStmt(Tac, st, TReturn(e), n) == Emission(f.code + [ReturnOf(f.loc)], n + TempCount(e), None)
  {
  }

  // ---------------------------------------------------------------------------
  // Failures

  /** The index of the first statement with an undeclared target, or |ss| when there is none. */
  function FirstUndeclared(st: SymTab, ss: seq<TStmt>): (j: nat)
    ensures j <= |ss|
    ensures forall i :: 0 <= i < j ==> TargetsDeclared(st, ss[i])
    ensures j < |ss| ==> !TargetsDeclared(st, ss[j])
  {
    if ss == [] || !TargetsDeclared(st, ss[0]) then 0
    else
      var j := 1 + FirstUndeclared(st, ss[1..]);
      assert forall i :: 1 <= i < j ==> ss[i] == ss[1..][i - 1];
      j
  }

  /**
   * The statement loop stops at the first statement with an undeclared
   * target: everything before it is generated in full, then that statement's
   * own partial output and failure end the run.
   */
  lemma GenStmtsStopsAt(b: Backend, st: SymTab, ss: seq<TStmt>, n: nat, j: nat)
    requires j < |ss| && !TargetsDeclared(st, ss[j])
    requires forall i :: 0 <= i < j ==> TargetsDeclared(st, ss[i])
    ensures var pre := GenStmts(b, st, ss[..j], n);
      var last := GenStmt(b, st, ss[j], pre.next);
      && pre.failure.None? && last.failure.Some?
      && GenStmts(b, st, ss, n) == Emission(pre.code + last.code, last.next, last.failure)
  {
    var pre := GenStmts(b, st, ss[..j], n);
    GenStmtsSucceed(b, st, ss[..j], n);
    assert ss == ss[..j] + ss[j..];
    GenStmtsAppend(b, st, ss[..j], ss[j..], n);
    GenStmtSucceeds(b, st, ss[j], pre.next);
    assert ss[j..][0] == ss[j];
  }

  /** Generating a concatenation after a prefix that succeeds emits the prefix's code and then the rest's. */
  lemma {:induction false} GenStmtsAppend(b: Backend, st: SymTab, a: seq<TStmt>, c: seq<TStmt>, n: nat)
    requires GenStmts(b, st, a, n).failure.None?
    ensures var ga := GenStmts(b, st, a, n);
      var gc := GenStmts(b, st, c, ga.next);
      GenStmts(b, st, a + c, n) == Emission(ga.code + gc.code, gc.next, gc.failure)
    decreases a
  {
    if a == [] {
      assert a + c == c;
      assert [] + GenStmts(b, st, c, n).code == GenStmts(b, st, c, n).code;
    } else {
      var e1 := GenStmt(b, st, a[0], n);
      assert (a + c)[0] == a[0];
      assert (a + c)[1..] == a[1..] + c;
      GenStmtsAppend(b, st, a[1..], c, e1.next);
      var g := GenStmts(b, st, c, GenStmts(b, st, a, n).next);
      var rest := GenStmts(b, st, a[1..], e1.next);
      assert e1.code + (rest.code + g.code) == e1.code + rest.code + g.code;
    }
  }

  /**
   * A failing statement list fails at its first statement with an undeclared
   * target, keeping the code of the statements before it and what that
   * statement printed.
   */
  lemma GenStmtsFailure(b: Backend, st: SymTab, ss: seq<TStmt>, n: nat)
    requires GenStmts(b, st, ss, n).failure.Some?
    ensures var j := FirstUndeclared(st, ss);
      && j < |ss|
      && (forall i :: 0 <= i < j ==> TargetsDeclared(st, ss[i]))
      && !TargetsDeclared(st, ss[j])
      && var pre := GenStmts(b, st, ss[..j], n);
         var last := GenStmt(b, st, ss[j], pre.next);
         && pre.failure.None?
         && GenStmts(b, st, ss, n) == Emission(pre.code + last.code, last.next, last.failure)
  {
    GenStmtsSucceed(b, st, ss, n);
    assert !forall i :: 0 <= i < |ss| ==> TargetsDeclared(st, ss[i]);
    GenStmtsStopsAt(b, st, ss, n, FirstUndeclared(st, ss));
  }

  /**
   * The conversion printed for `print` follows the expression's type, and
   * the one for `read` the declared type of its variable.
   */
  lemma ConversionFlags(b: Backend, st: SymTab, e: TExpr, t: IdToken, n: nat)
    ensures var code := GenStmt(b, st, TPrint(e), n).code;
      |code| > 0 && code[|code| - 1] == Printf(Flag(e.ty), GenExpr(e, None, n).loc)
    ensures t.name in st ==> GenStmt(b, st, TRead(t), n).code == [Scanf(Flag(st[t.name]), t.name)]
  {
  }

  /** An assignment or `read` fails exactly when its variable is undeclared, and then prints nothing. */
  lemma UndeclaredTargetFails(b: Backend, st: SymTab, s: TStmt, n: nat)
    requires s.TAssign? || s.TRead?
    ensures var x := if s.TAssign? then s.lhs else s.target.name;
      && (GenStmt(b, st, s, n).failure.Some? <==> x !in st)
      && (x !in st ==> GenStmt(b, st, s, n) == Emission([], n, Some(UndeclaredVariable(x))))
  {
  }

  /** Only assignments and reads can fail: on a typed program whose targets are declared, generation succeeds. */
  predicate TargetsDeclared(st: SymTab, s: TStmt) {
    match s
    case TAssign(x, _) => x in st
    case TRead(t) => t.name in st
    case TWhile(_, body) => forall i :: 0 <= i < |body| ==> TargetsDeclared(st, body[i])
    case _ => true
  }

  lemma {:induction false} GenStmtSucceeds(b: Backend, st: SymTab, s: TStmt, n: nat)
    ensures GenStmt(b, st, s, n).failure.None? <==> TargetsDeclared(st, s)
    decreases s, 0
  {
    match s
    case TWhile(c, body) =>
      GenStmtsSucceed(b, st, body, GenExpr(c, None, n).next);
    case _ =>
  }

  lemma {:induction false} GenStmtsSucceed(b: Backend, st: SymTab, ss: seq<TStmt>, n: nat)
    ensures GenStmts(b, st, ss, n).failure.None? <==> forall i :: 0 <= i < |ss| ==> TargetsDeclared(st, ss[i])
    decreases ss, 1
  {
    if ss != [] {
      GenStmtSucceeds(b, st, ss[0], n);
      var e1 := GenStmt(b, st, ss[0], n);
      if e1.failure.None? {
        GenStmtsSucceed(b, st, ss[1..], e1.next);
        if !forall i :: 0 <= i < |ss[1..]| ==> TargetsDeclared(st, ss[1..][i]) {
          var i :| 0 <= i < |ss[1..]| && !TargetsDeclared(st, ss[1..][i]);
          assert ss[i + 1] == ss[1..][i];
        } else {
          forall i | 0 <= i < |ss|
            ensures TargetsDeclared(st, ss[i])
          {
            if i > 0 {
              assert ss[i] == ss[1..][i - 1];
            }
          }
        }
      }
    }
  }

  // ---------------------------------------------------------------------------
  // The shape of the emitted statement code

  /** An instruction that statements may emit: anything but the C preamble. */
  predicate InBody(i: Instr) {
    !(i.Include? || i.MainOpen? || i.VarDecl?)
  }

  predicate AllInBody(code: seq<Instr>) {
    forall i :: 0 <= i < |code| ==> InBody(code[i])
  }

  /** How many braces an instruction opens (1), closes (-1) or leaves alone (0). */
  function BraceDelta(i: Instr): (r: int) {
    match i
    case MainOpen => 1
    case WhileOpen(_) => 1
    case Close => -1
    case _ => 0
  }

  /** Braces opened minus braces closed. */
  function Balance(code: seq<Instr>): (r: int) {
    if code == [] then 0 else BraceDelta(code[0]) + Balance(code[1..])
  }

  lemma {:induction false} BalanceAppend(a: seq<Instr>, c: seq<Instr>)
    ensures Balance(a + c) == Balance(a) + Balance(c)
    decreases |a|
  {
    if a == [] {
      assert a + c == c;
    } else {
      assert (a + c)[1..] == a[1..] + c;
      BalanceAppend(a[1..], c);
    }
  }

  lemma BalanceSingle(i: Instr)
    ensures Balance([i]) == BraceDelta(i)
  {
    assert [i][1..] == [];
  }

  /** Joining two pieces of statement code. */
  lemma JoinBody(a: seq<Instr>, c: seq<Instr>)
    requires AllInBody(a) && AllInBody(c)
    ensures AllInBody(a + c) && Balance(a + c) == Balance(a) + Balance(c)
  {
    BalanceAppend(a, c);
    forall i | 0 <= i < |a + c|
      ensures InBody((a + c)[i])
    {
      if i >= |a| {
        assert (a + c)[i] == c[i - |a|];
      }
    }
  }

  /** An expression's code is straight-line: no preamble, no braces. */
  lemma {:induction false} GenExprShape(e: TExpr, into: Option<Loc>, n: nat)
    ensures AllInBody(GenExpr(e, into, n).code) && Balance(GenExpr(e, into, n).code) == 0
    decreases e, 1
  {
    match e
    case TBinOp(op, l, r, t) => BinOpShape(op, l, r, t, n);
    case TId(_, _) =>
    case _ => LiteralShape(e, into, n);
  }

  lemma {:induction false} BinOpShape(op: Op, l: TExpr, r: TExpr, t: Type, n: nat)
    ensures var code := GenExpr(TBinOp(op, l, r, t), None, n).code;
      AllInBody(code) && Balance(code) == 0
    decreases TBinOp(op, l, r, t), 0
  {
    var fl := GenExpr(l, None, n);
    var fr := GenExpr(r, None, fl.next);
    var i := BinDef(t, Temp(fr.next + 1), fl.loc, op, fr.loc);
    assert GenExpr(TBinOp(op, l, r, t), None, n).code == fl.code + fr.code + [i];
    GenExprShape(l, None, n);
    GenExprShape(r, None, fl.next);
    JoinBody(fl.code, fr.code);
    ThenShape(fl.code + fr.code, i);
  }

  lemma LiteralShape(e: TExpr, into: Option<Loc>, n: nat)
    requires IsLiteral(e)
    ensures AllInBody(GenExpr(e, into, n).code) && Balance(GenExpr(e, into, n).code) == 0
  {
    var f := GenExpr(e, into, n);
    assert f.code == [f.code[0]] && f.code[0].LitDef?;
    BalanceSingle(f.code[0]);
  }

  /** The code of a straight-line statement and a trailing instruction. */
  lemma ThenShape(a: seq<Instr>, i: Instr)
    requires AllInBody(a) && Balance(a) == 0 && InBody(i) && BraceDelta(i) == 0
    ensures AllInBody(a + [i]) && Balance(a + [i]) == 0
  {
    BalanceSingle(i);
    JoinBody(a, [i]);
  }

  /**
   * A statement's code never holds the C preamble, and its braces balance;
   * code cut short by a failure may leave loops open, never close too many.
   */
  lemma {:induction false} GenStmtShape(b: Backend, st: SymTab, s: TStmt, n: nat)
    ensures AllInBody(GenStmt(b, st, s, n).code)
    ensures GenStmt(b, st, s, n).failure.None? ==> Balance(GenStmt(b, st, s, n).code) == 0
    ensures Balance(GenStmt(b, st, s, n).code) >= 0
    decreases s, 1
  {
    match s
    case TAssign(x, e) =>
      if x in st {
        var f := GenExpr(e, None, n);
        GenExprShape(e, None, n);
        ThenShape(f.code, Copy(x, f.loc));
      }
    case TPrint(e) =>
      var f := GenExpr(e, None, n);
      GenExprShape(e, None, n);
      ThenShape(f.code, Printf(Flag(e.ty), f.loc));
    case TReturn(e) =>
      if b == Tac {
        var f := GenExpr(e, None, n);
        GenExprShape(e, None, n);
        ThenShape(f.code, ReturnOf(f.loc));
      }
    case TRead(t) =>
    case TWhile(c, body) => WhileShape(b, st, c, body, n);
  }

  lemma {:induction false} WhileShape(b: Backend, st: SymTab, c: TExpr, body: seq<TStmt>, n: nat)
    ensures AllInBody(GenStmt(b, st, TWhile(c, body), n).code)
    ensures GenStmt(b, st, TWhile(c, body), n).failure.None? ==> Balance(GenStmt(b, st, TWhile(c, body), n).code) == 0
    ensures Balance(GenStmt(b, st, TWhile(c, body), n).code) >= 0
    decreases TWhile(c, body), 0
  {
    var f := GenExpr(c, None, n);
    var eb := GenStmts(b, st, body, f.next);
    GenExprShape(c, None, n);
    GenStmtsShape(b, st, body, f.next);
    var head := f.code + [WhileOpen(f.loc)];
    BalanceSingle(WhileOpen(f.loc));
    JoinBody(f.code, [WhileOpen(f.loc)]);
    JoinBody(head, eb.code);
    if eb.failure.None? {
      var g := GenExpr(c, Some(f.loc), eb.next);
      GenExprShape(c, Some(f.loc), eb.next);
      JoinBody(head + eb.code, g.code);
      BalanceSingle(Close);
      JoinBody(head + eb.code + g.code, [Close]);
    }
  }

  lemma {:induction false} GenStmtsShape(b: Backend, st: SymTab, ss: seq<TStmt>, n: nat)
    ensures AllInBody(GenStmts(b, st, ss, n).code)
    ensures GenStmts(b, st, ss, n).failure.None? ==> Balance(GenStmts(b, st, ss, n).code) == 0
    ensures Balance(GenStmts(b, st, ss, n).code) >= 0
    decreases ss, 2
  {
    if ss != [] {
      var e1 := GenStmt(b, st, ss[0], n);
      GenStmtShape(b, st, ss[0], n);
      if e1.failure.None? {
        var e2 := GenStmts(b, st, ss[1..], e1.next);
        GenStmtsShape(b, st, ss[1..], e1.next);
        JoinBody(e1.code, e2.code);
      }
    }
  }
}
