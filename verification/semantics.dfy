/**
 * What the flat code computes, symbolically. A location holds an expression
 * over the values the variables had at the start; a literal or an operator
 * instruction builds that expression, a copy moves it, `printf` appends it to
 * the output and `scanf` takes the next input. Executing the code generated
 * for an expression leaves, at the location it reports, the expression itself
 * with each variable replaced by its current value, whatever the
 * temporaries held before.
 */
module FlatSemantics {
  import opened Tokens
  import opened Errors
  import opened Ast
  import opened SymbolTable
  import opened Lowering
  import opened Render
  import opened Decimal

  type Store = map<Loc, Expr>

  datatype Machine = Machine(store: Store, input: seq<Expr>, output: seq<Expr>)

  /** A variable never assigned still holds its initial value; an unassigned temporary holds 0. */
  function Lookup(st: Store, l: Loc): (r: Expr) {
    if l in st then st[l]
    else match l
      case Var(x) => Id(x)
      case Temp(_) => IntLit(0)
  }

  /** The expression with every variable replaced by what it holds in `st`. */
  function Subst(e: Expr, st: Store): (r: Expr) {
    match e
    case Id(x) => Lookup(st, Var(x))
    case BinOp(op, l, r) => BinOp(op, Subst(l, st), Subst(r, st))
    case _ => e
  }

  function LitValue(lit: Lit): (r: Expr) {
    match lit
    case IntL(v) => IntLit(v)
    case FloatL(f) => FloatLit(f)
  }

  function Step(m: Machine, i: Instr): (r: Machine) {
    match i
    case LitDef(_, d, lit) => m.(store := m.store[d := LitValue(lit)])
    case BinDef(_, d, l, op, r) => m.(store := m.store[d := BinOp(op, Lookup(m.store, l), Lookup(m.store, r))])
    case Copy(x, src) => m.(store := m.store[Var(x) := Lookup(m.store, src)])
    case Printf(_, src) => m.(output := m.output + [Lookup(m.store, src)])
    case Scanf(_, x) =>
      if m.input == [] then m
      else m.(store := m.store[Var(x) := m.input[0]], input := m.input[1..])
    case _ => m
  }

  function Exec(m: Machine, code: seq<Instr>): (r: Machine)
    decreases |code|
  {
    if code == [] then m else Exec(Step(m, code[0]), code[1..])
  }

  lemma {:induction false} ExecAppend(m: Machine, a: seq<Instr>, c: seq<Instr>)
    ensures Exec(m, a + c) == Exec(Exec(m, a), c)
    decreases |a|
  {
    if a == [] {
      assert a + c == c;
    } else {
      assert (a + c)[1..] == a[1..] + c;
      ExecAppend(Step(m, a[0]), a[1..], c);
    }
  }

  /** Two machines a program cannot tell apart: same variables, same input, same output. */
  ghost predicate Agree(m1: Machine, m2: Machine) {
    && m1.input == m2.input
    && m1.output == m2.output
    && forall x :: Lookup(m1.store, Var(x)) == Lookup(m2.store, Var(x))
  }

  lemma {:induction false} SubstReadsVariablesOnly(e: Expr, s1: Store, s2: Store)
    requires forall x :: Lookup(s1, Var(x)) == Lookup(s2, Var(x))
    ensures Subst(e, s1) == Subst(e, s2)
  {
    match e
    case BinOp(_, l, r) =>
      SubstReadsVariablesOnly(l, s1, s2);
      SubstReadsVariablesOnly(r, s1, s2);
    case _ =>
  }

  // ---------------------------------------------------------------------------
  // Expressions

  /** What running an expression's code guarantees. */
  ghost predicate Computes(m: Machine, m': Machine, e: TExpr, loc: Loc, n: nat) {
    && m'.input == m.input
    && m'.output == m.output
    && Lookup(m'.store, loc) == Subst(EraseExpr(e), m.store)
    && (forall x :: Lookup(m'.store, Var(x)) == Lookup(m.store, Var(x)))
    && (forall k: nat :: k <= n ==> Lookup(m'.store, Temp(k)) == Lookup(m.store, Temp(k)))
  }

  lemma BinOpStep(m: Machine, m1: Machine, m2: Machine, l: TExpr, r: TExpr, fl: Flat, fr: Flat, n: nat,
                  t: Type, op: Op)
    requires n <= fl.next <= fr.next
    requires Computes(m, m1, l, fl.loc, n) && Computes(m1, m2, r, fr.loc, fl.next)
    requires fl.loc.Var? || fl.loc.k <= fl.next
    ensures Computes(m, Step(m2, BinDef(t, Temp(fr.next + 1), fl.loc, op, fr.loc)),
                     TBinOp(op, l, r, t), Temp(fr.next + 1), n)
  {
    SubstReadsVariablesOnly(EraseExpr(r), m1.store, m.store);
    assert Lookup(m2.store, fl.loc) == Lookup(m1.store, fl.loc);
  }

  lemma ExecThree(m: Machine, a: seq<Instr>, c: seq<Instr>, last: Instr)
    ensures Exec(m, a + c + [last]) == Step(Exec(Exec(m, a), c), last)
  {
    ExecAppend(m, a, c);
    ExecAppend(m, a + c, [last]);
    assert Exec(Exec(m, a + c), [last]) == Step(Exec(m, a + c), last);
  }

  /**
   * Flattening is correct: after the code for `e`, the reported location
   * holds `e`'s value in the starting state, no variable has changed,
   * nothing was read or printed, and no temporary up to the starting counter
   * was touched.
   */
  lemma {:induction false} GenExprComputes(m: Machine, e: TExpr, n: nat)
    ensures var f := GenExpr(e, None, n);
      Computes(m, Exec(m, f.code), e, f.loc, n)
    decreases e
  {
    match e
    case TBinOp(op, l, r, t) =>
      var fl := GenExpr(l, None, n);
      GenExprComputes(m, l, n);
      GenExprComputes(Exec(m, fl.code), r, fl.next);
      BinOpComputes(m, op, l, r, t, n);
    case TId(_, _) =>
    case _ =>
      LiteralComputes(m, e, n);
  }

  lemma LiteralComputes(m: Machine, e: TExpr, n: nat)
    requires IsLiteral(e)
    ensures var f := GenExpr(e, None, n);
      Computes(m, Exec(m, f.code), e, f.loc, n)
  {
    var f := GenExpr(e, None, n);
    assert Exec(m, f.code) == Step(m, f.code[0]);
  }

  lemma BinOpComputes(m: Machine, op: Op, l: TExpr, r: TExpr, t: Type, n: nat)
    requires var fl := GenExpr(l, None, n);
      && Computes(m, Exec(m, fl.code), l, fl.loc, n)
      && Computes(Exec(m, fl.code), Exec(Exec(m, fl.code), GenExpr(r, None, fl.next).code), r,
                  GenExpr(r, None, fl.next).loc, fl.next)
    ensures var f := GenExpr(TBinOp(op, l, r, t), None, n);
      Computes(m, Exec(m, f.code), TBinOp(op, l, r, t), f.loc, n)
  {
    var fl := GenExpr(l, None, n);
    var fr := GenExpr(r, None, fl.next);
    var m1 := Exec(m, fl.code);
    var m2 := Exec(m1, fr.code);
    GenExprLocation(l, n);
    BinOpStep(m, m1, m2, l, r, fl, fr, n, t, op);
    ExecThree(m, fl.code, fr.code, BinDef(t, Temp(fr.next + 1), fl.loc, op, fr.loc));
  }

  // ---------------------------------------------------------------------------
  // Straight-line statements

  /** Assignments, prints and reads: the statements without control flow. */
  predicate StraightLine(s: TStmt) {
    s.TAssign? || s.TPrint? || s.TRead?
  }

  /** The direct reading of a straight-line statement. */
  function Perform(m: Machine, s: TStmt): (r: Machine)
    requires StraightLine(s)
  {
    match s
    case TAssign(x, e) => m.(store := m.store[Var(x) := Subst(EraseExpr(e), m.store)])
    case TPrint(e) => m.(output := m.output + [Subst(EraseExpr(e), m.store)])
    case TRead(t) =>
      if m.input == [] then m
      else m.(store := m.store[Var(t.name) := m.input[0]], input := m.input[1..])
  }

  function PerformAll(m: Machine, ss: seq<TStmt>): (r: Machine)
    requires forall i :: 0 <= i < |ss| ==> StraightLine(ss[i])
    decreases |ss|
  {
    if ss == [] then m else PerformAll(Perform(m, ss[0]), ss[1..])
  }

  lemma ExprThenUse(m: Machine, e: TExpr, n: nat, use: Instr)
    ensures var f := GenExpr(e, None, n);
      Exec(m, f.code + [use]) == Step(Exec(m, f.code), use)
  {
    var f := GenExpr(e, None, n);
    ExecAppend(m, f.code, [use]);
  }

  /** The code for one straight-line statement has the statement's effect. */
  lemma GenStmtPerforms(b: Backend, st: SymTab, s: TStmt, n: nat, m1: Machine, m2: Machine)
    requires StraightLine(s) && Agree(m1, m2)
    requires GenStmt(b, st, s, n).failure.None?
    ensures Agree(Exec(m1, GenStmt(b, st, s, n).code), Perform(m2, s))
  {
    match s
    case TAssign(x, e) => AssignPerforms(b, st, x, e, n, m1, m2);
    case TPrint(e) => PrintPerforms(b, st, e, n, m1, m2);
    case TRead(t) =>
      assert Exec(m1, GenStmt(b, st, s, n).code) == Step(m1, Scanf(Flag(st[t.name]), t.name));
  }

  lemma AssignPerforms(b: Backend, st: SymTab, x: string, e: TExpr, n: nat, m1: Machine, m2: Machine)
    requires Agree(m1, m2) && x in st
    ensures Agree(Exec(m1, GenStmt(b, st, TAssign(x, e), n).code), Perform(m2, TAssign(x, e)))
  {
    var f := GenExpr(e, None, n);
    GenExprComputes(m1, e, n);
    ExprThenUse(m1, e, n, Copy(x, f.loc));
    SubstReadsVariablesOnly(EraseExpr(e), m1.store, m2.store);
  }

  lemma PrintPerforms(b: Backend, st: SymTab, e: TExpr, n: nat, m1: Machine, m2: Machine)
    requires Agree(m1, m2)
    ensures Agree(Exec(m1, GenStmt(b, st, TPrint(e), n).code), Perform(m2, TPrint(e)))
  {
    var f := GenExpr(e, None, n);
    GenExprComputes(m1, e, n);
    ExprThenUse(m1, e, n, Printf(Flag(e.ty), f.loc));
    SubstReadsVariablesOnly(EraseExpr(e), m1.store, m2.store);
  }

  /**
   * Compiler correctness for straight-line programs: when generation
   * succeeds, running the generated code leaves the variables, the input and
   * the output exactly as performing the statements directly would.
   */
  lemma {:induction false} GenStmtsPerform(b: Backend, st: SymTab, ss: seq<TStmt>, n: nat, m1: Machine, m2: Machine)
    requires forall i :: 0 <= i < |ss| ==> StraightLine(ss[i])
    requires Agree(m1, m2)
    requires GenStmts(b, st, ss, n).failure.None?
    ensures Agree(Exec(m1, GenStmts(b, st, ss, n).code), PerformAll(m2, ss))
    decreases |ss|
  {
    if ss != [] {
      var e1 := GenStmt(b, st, ss[0], n);
      GenStmtPerforms(b, st, ss[0], n, m1, m2);
      GenStmtsPerform(b, st, ss[1..], e1.next, Exec(m1, e1.code), Perform(m2, ss[0]));
      ExecAppend(m1, e1.code, GenStmts(b, st, ss[1..], e1.next).code);
    }
  }

  // ---------------------------------------------------------------------------
  // Loops

  /**
   * The refresh at the end of a loop body: a literal condition is stored
   * into the guard again, while an operator condition is recomputed into new
   * temporaries and the guard keeps the value from before the loop.
   */
  lemma RefreshUpdatesGuardOnlyForLiterals(m: Machine, c: TExpr, k: nat, n: nat)
    requires k <= n
    ensures var m' := Exec(m, GenExpr(c, Some(Temp(k)), n).code);
      && (IsLiteral(c) ==> Lookup(m'.store, Temp(k)) == Subst(EraseExpr(c), m.store))
      && (c.TBinOp? ==> Lookup(m'.store, Temp(k)) == Lookup(m.store, Temp(k)))
  {
    if c.TBinOp? {
      GenExprSuggested(c, Temp(k), n);
      GenExprComputes(m, c, n);
    } else if IsLiteral(c) {
      assert Exec(m, GenExpr(c, Some(Temp(k)), n).code) == Step(m, GenExpr(c, Some(Temp(k)), n).code[0]);
    }
  }

  // ---------------------------------------------------------------------------
  // Where the printed text departs from the instructions

  /**
   * The reading above keeps `Var("t2")` and `Temp(2)` apart, but the printed
   * text does not. With `t2` declared, `t2 = 7; print t2 + 1;` becomes
   * `t1 = 7; t2 = t1; t2 = 1; t3 = t2 + t2;` in three-address code. The
   * instructions print 7 + 1; the printed program overwrites `t2` and prints
   * 1 + 1.
   */
  lemma TempCapture()
    ensures var st: SymTab := map["t2" := Int];
      var ss := [TAssign("t2", TIntLit(7, Int)), TPrint(TBinOp(Add, TId("t2", Int), TIntLit(1, Int), Int))];
      var g := GenStmts(Tac, st, ss, 0);
      && g.failure.None?
      && g.code == CaptureCode()
      && Exec(Machine(map[], [], []), g.code).output == [BinOp(Add, IntLit(7), IntLit(1))]
      && LocName(Tac, Var("t2")) == LocName(Tac, Temp(2))
  {
    CaptureGenerated();
    CaptureRun();
    assert NatToString(2) == "2";
  }

  function CaptureCode(): (r: seq<Instr>) {
    [LitDef(Int, Temp(1), IntL(7)), Copy("t2", Temp(1)), LitDef(Int, Temp(2), IntL(1)),
     BinDef(Int, Temp(3), Var("t2"), Add, Temp(2)), Printf('d', Temp(3))]
  }

  lemma CaptureGenerated()
    ensures var st: SymTab := map["t2" := Int];
      var ss := [TAssign("t2", TIntLit(7, Int)), TPrint(TBinOp(Add, TId("t2", Int), TIntLit(1, Int), Int))];
      GenStmts(Tac, st, ss, 0) == Emission(CaptureCode(), 3, None)
  {
    var st: SymTab := map["t2" := Int];
    var s1 := TAssign("t2", TIntLit(7, Int));
    var s2 := TPrint(TBinOp(Add, TId("t2", Int), TIntLit(1, Int), Int));
    var ss := [s1, s2];
    assert ss[1..] == [s2];
    assert [s2][1..] == [];
    assert "t2" in st;
    var e1 := GenStmt(Tac, st, s1, 0);
    assert GenExpr(TIntLit(7, Int), None, 0) == Flat([LitDef(Int, Temp(1), IntL(7))], Temp(1), 1);
    assert e1 == Emission([LitDef(Int, Temp(1), IntL(7))] + [Copy("t2", Temp(1))], 1, None);
    var e2 := GenStmt(Tac, st, s2, 1);
    assert GenExpr(TId("t2", Int), None, 1) == Flat([], Var("t2"), 1);
    assert GenExpr(TIntLit(1, Int), None, 1) == Flat([LitDef(Int, Temp(2), IntL(1))], Temp(2), 2);
    assert e2 == Emission([] + [LitDef(Int, Temp(2), IntL(1))] + [BinDef(Int, Temp(3), Var("t2"), Add, Temp(2))]
                          + [Printf('d', Temp(3))], 3, None);
    assert GenStmts(Tac, st, [s2], 1) == Emission(e2.code + [], 3, None);
    assert e1.code + (e2.code + []) == CaptureCode();
  }

  lemma CaptureRun()
    ensures Exec(Machine(map[], [], []), CaptureCode()).output == [BinOp(Add, IntLit(7), IntLit(1))]
  {
    var code := CaptureCode();
    var m0 := Machine(map[], [], []);
    var a := code[..2];
    var c := code[2..];
    assert a == [LitDef(Int, Temp(1), IntL(7)), Copy("t2", Temp(1))];
    var m1 := Step(m0, a[0]);
    assert Lookup(m1.store, Temp(1)) == IntLit(7);
    var m2 := Step(m1, a[1]);
    assert Lookup(m2.store, Var("t2")) == IntLit(7);
    assert a[1..] == [a[1]] && [a[1]][1..] == [];
    assert Exec(m1, a[1..]) == Exec(m2, []) == m2;
    assert Exec(m0, a) == m2;
    assert c == [LitDef(Int, Temp(2), IntL(1)), BinDef(Int, Temp(3), Var("t2"), Add, Temp(2)), Printf('d', Temp(3))];
    var m3 := Step(m2, c[0]);
    assert Lookup(m3.store, Var("t2")) == IntLit(7) && Lookup(m3.store, Temp(2)) == IntLit(1);
    var m4 := Step(m3, c[1]);
    assert Lookup(m4.store, Temp(3)) == BinOp(Add, IntLit(7), IntLit(1));
    var m5 := Step(m4, c[2]);
    assert m5.output == [BinOp(Add, IntLit(7), IntLit(1))];
    assert c[1..] == [c[1], c[2]] && c[1..][1..] == [c[2]] && c[1..][1..][1..] == [];
    assert Exec(m4, c[1..][1..]) == Exec(m5, []) == m5;
    assert Exec(m3, c[1..]) == m5;
    assert Exec(m2, c) == m5;
    ExecAppend(m0, a, c);
    assert a + c == code;
  }
}
