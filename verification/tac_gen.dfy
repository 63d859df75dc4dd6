/**
 * The three-address-code generator: the statements alone, flattened the same
 * way as for C, with `return` kept. Its temporary counter is a separate
 * module-level global, threaded through as `n` (0 in a fresh process).
 */
module TacGen {
  import opened Tokens
  import opened Errors
  import opened Ast
  import opened SymbolTable
  import opened Lowering
  import opened Render
  import opened CodeGen

  /** tac_gen: the statements' instructions, cut short where the generator stops. */
  function TacGen(p: TProgram, st: SymTab, n: nat): (r: Emission)
    ensures n <= r.next
  {
    GenStmts(Tac, st, p.stmts, n)
  }

  /** What tac_gen prints. */
  function TacText(p: TProgram, st: SymTab, n: nat): (r: string) {
    Output(Tac, TacGen(p, st, n).code)
  }

  /**
   * Three-address code has no header, no `main` and no declarations; its
   * loop braces balance when it runs to the end, and it runs to the end
   * exactly when every assigned or read variable is declared.
   */
  lemma TacGenShape(p: TProgram, st: SymTab, n: nat)
    ensures forall i :: 0 <= i < |TacGen(p, st, n).code| ==>
      !(TacGen(p, st, n).code[i].Include? || TacGen(p, st, n).code[i].MainOpen? || TacGen(p, st, n).code[i].VarDecl?)
    ensures TacGen(p, st, n).failure.None? ==> Balance(TacGen(p, st, n).code) == 0
    ensures TacGen(p, st, n).failure.None? <==> forall i :: 0 <= i < |p.stmts| ==> TargetsDeclared(st, p.stmts[i])
  {
    GenStmtsShape(Tac, st, p.stmts, n);
    GenStmtsSucceed(Tac, st, p.stmts, n);
  }

  /**
   * On programs without `return`, the C program is the three-address code
   * wrapped in the header, `main`, the declarations and a closing brace:
   * both generators emit the same instructions, draw the same temporaries and
   * stop at the same statement.
   */
  lemma CodegenWrapsTac(p: TProgram, st: SymTab, n: nat)
    requires forall i :: 0 <= i < |p.stmts| ==> NoReturn(p.stmts[i])
    ensures var t := TacGen(p, st, n);
      && Codegen(p, st, n).failure == t.failure
      && Codegen(p, st, n).next == t.next
      && Codegen(p, st, n).code == Preamble(p) + t.code + (if t.failure.None? then [Close] else [])
  {
    BackendsAgreeOnAll(st, p.stmts, n);
  }

  /** A `return` is where the two differ: the C program leaves it out. */
  lemma ReturnOnlyInTac(p: TProgram, st: SymTab, n: nat, e: TExpr)
    requires p.stmts == [TReturn(e)]
    ensures var f := GenExpr(e, None, n);
      && TacGen(p, st, n).code == f.code + [ReturnOf(f.loc)]
      && Codegen(p, st, n).code == Preamble(p) + [Close]
  {
    ReturnLowering(st, e, n);
    assert p.stmts[1..] == [];
    var t := GenStmt(Tac, st, TReturn(e), n);
    assert GenStmts(Tac, st, p.stmts, n).code == t.code + [];
    var c := GenStmt(C, st, TReturn(e), n);
    assert GenStmts(C, st, p.stmts, n) == Emission(c.code + [], n, None);
    assert Preamble(p) + ([] + []) + [Close] == Preamble(p) + [Close];
  }
}
