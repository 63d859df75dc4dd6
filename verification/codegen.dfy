/**
 * The C generator: the standard header, `main`, one declaration per
 * variable, the statements, and the closing brace. The temporary counter is
 * a module-level global that is never reset, so it is threaded through as
 * `n` (0 in a fresh process). An undeclared target stops the generator after
 * what it has printed, with `main` still open.
 */
module CodeGen {
  import opened Tokens
  import opened Errors
  import opened Ast
  import opened SymbolTable
  import opened Lowering
  import opened Render

  /** gen_decl over the declarations: one C declaration per variable, in order. */
  function DeclLines(ds: seq<Decl>): (r: seq<Instr>)
    ensures |r| == |ds|
    ensures forall i :: 0 <= i < |ds| ==> r[i] == VarDecl(ds[i].ty, ds[i].name)
  {
    if ds == [] then [] else [VarDecl(ds[0].ty, ds[0].name)] + DeclLines(ds[1..])
  }

  /** The instructions before the first statement. */
  function Preamble(p: TProgram): (r: seq<Instr>) {
    [Include, MainOpen] + DeclLines(p.decls)
  }

  /** codegen: the program's C text as instructions, cut short where the generator stops. */
  function Codegen(p: TProgram, st: SymTab, n: nat): (r: Emission)
    ensures r.failure == GenStmts(C, st, p.stmts, n).failure
    ensures r.next == GenStmts(C, st, p.stmts, n).next
    ensures |r.code| >= 2 + |p.decls| && r.code[..2 + |p.decls|] == Preamble(p)
  {
    var body := GenStmts(C, st, p.stmts, n);
    if body.failure.Some? then Emission(Preamble(p) + body.code, body.next, body.failure)
    else Emission(Preamble(p) + body.code + [Close], body.next, None)
  }

  /** What codegen prints. */
  function CodegenText(p: TProgram, st: SymTab, n: nat): (r: string) {
    Output(C, Codegen(p, st, n).code)
  }

  // ---------------------------------------------------------------------------
  // Properties

  /** The generator runs to the end exactly when every assigned or read variable is declared. */
  lemma CodegenSucceeds(p: TProgram, st: SymTab, n: nat)
    ensures Codegen(p, st, n).failure.None? <==> forall i :: 0 <= i < |p.stmts| ==> TargetsDeclared(st, p.stmts[i])
  {
    GenStmtsSucceed(C, st, p.stmts, n);
  }

  lemma PreambleShape(p: TProgram)
    ensures Balance(Preamble(p)) == 1
    ensures forall i :: 0 <= i < |Preamble(p)| ==> (Preamble(p)[i].VarDecl? <==> i >= 2)
  {
    BalanceDecls(DeclLines(p.decls));
    BalanceAppend([Include, MainOpen], DeclLines(p.decls));
    assert Balance([Include, MainOpen]) == 1 by {
      assert [Include, MainOpen][1..] == [MainOpen];
      BalanceSingle(MainOpen);
    }
  }

  lemma {:induction false} BalanceDecls(code: seq<Instr>)
    requires forall i :: 0 <= i < |code| ==> code[i].VarDecl?
    ensures Balance(code) == 0
    decreases |code|
  {
    if code != [] {
      BalanceDecls(code[1..]);
    }
  }

  /**
   * The header and `main` come first and only once, the declarations right
   * after them, and no declaration appears among the statements.
   */
  lemma CodegenPreambleOnce(p: TProgram, st: SymTab, n: nat)
    ensures var code := Codegen(p, st, n).code;
      && code[0] == Include && code[1] == MainOpen
      && (forall i :: 0 <= i < |code| ==> (code[i].VarDecl? <==> 2 <= i < 2 + |p.decls|))
      && (forall i :: 0 <= i < |code| ==> (code[i].Include? <==> i == 0))
      && (forall i :: 0 <= i < |code| ==> (code[i].MainOpen? <==> i == 1))
  {
    var body := GenStmts(C, st, p.stmts, n);
    var pre := Preamble(p);
    var code := Codegen(p, st, n).code;
    var tail: seq<Instr> := if body.failure.None? then [Close] else [];
    assert code == pre + body.code + tail;
    PreambleShape(p);
    GenStmtsShape(C, st, p.stmts, n);
    forall i | 0 <= i < |code|
      ensures code[i].VarDecl? <==> 2 <= i < 2 + |p.decls|
      ensures code[i].Include? <==> i == 0
      ensures code[i].MainOpen? <==> i == 1
    {
      if i < |pre| {
        assert code[i] == pre[i];
      } else if i < |pre| + |body.code| {
        assert code[i] == body.code[i - |pre|];
        assert InBody(body.code[i - |pre|]);
      } else {
        assert code[i] == tail[i - |pre| - |body.code|];
      }
    }
  }

  /** On success every brace is closed, the last line closing `main`; on failure `main` at least is left open. */
  lemma CodegenBraces(p: TProgram, st: SymTab, n: nat)
    ensures var code := Codegen(p, st, n).code;
      && (Codegen(p, st, n).failure.None? ==> Balance(code) == 0 && code[|code| - 1] == Close)
      && (Codegen(p, st, n).failure.Some? ==> Balance(code) >= 1)
  {
    var body := GenStmts(C, st, p.stmts, n);
    var pre := Preamble(p);
    PreambleShape(p);
    GenStmtsShape(C, st, p.stmts, n);
    BalanceAppend(pre, body.code);
    if body.failure.None? {
      BalanceAppend(pre + body.code, [Close]);
      BalanceSingle(Close);
    }
  }

  /** Every declared variable is declared in C, with its own type, before any statement. */
  lemma CodegenDeclares(p: TProgram, st: SymTab, n: nat)
    ensures forall i :: 0 <= i < |p.decls| ==> Codegen(p, st, n).code[2 + i] == VarDecl(p.decls[i].ty, p.decls[i].name)
  {
    var code := Codegen(p, st, n).code;
    forall i | 0 <= i < |p.decls|
      ensures code[2 + i] == VarDecl(p.decls[i].ty, p.decls[i].name)
    {
      assert code[2 + i] == Preamble(p)[2 + i];
    }
  }

  /** The printed text: the header and `main` line, the declarations, the statements, the closing brace. */
  lemma CodegenTextFrame(p: TProgram, st: SymTab, n: nat)
    ensures var body := GenStmts(C, st, p.stmts, n);
      CodegenText(p, st, n)
      == IncludeLine + "\n" + MainLine + "\n" + Output(C, DeclLines(p.decls)) + Output(C, body.code)
         + (if body.failure.None? then "}\n" else "")
  {
    var body := GenStmts(C, st, p.stmts, n);
    var pre := Preamble(p);
    var tail: seq<Instr> := if body.failure.None? then [Close] else [];
    assert Codegen(p, st, n).code == pre + body.code + tail;
    OutputAppend(C, pre + body.code, tail);
    OutputAppend(C, pre, body.code);
    PreambleText(p);
    CloseText(tail, body.failure.None?);
  }

  lemma CloseText(tail: seq<Instr>, closed: bool)
    requires tail == if closed then [Close] else []
    ensures Output(C, tail) == if closed then "}\n" else ""
  {
    if closed {
      assert tail[1..] == [];
    }
  }

  lemma PreambleText(p: TProgram)
    ensures Output(C, Preamble(p)) == IncludeLine + "\n" + MainLine + "\n" + Output(C, DeclLines(p.decls))
  {
    assert Output(C, [MainOpen]) == MainLine + "\n" by {
      assert [MainOpen][1..] == [];
    }
    assert Output(C, [Include, MainOpen]) == IncludeLine + "\n" + (MainLine + "\n") by {
      assert [Include, MainOpen][1..] == [MainOpen];
    }
    OutputAppend(C, [Include, MainOpen], DeclLines(p.decls));
  }
}
