/**
 * The symbol table: a map from every declared variable to its declared type,
 * built by one pass over the declarations that rejects the first name declared
 * twice.
 */
module SymbolTable {
  import opened Tokens
  import opened Errors
  import opened Ast

  type SymTab = map<string, Type>

  /** No name is declared twice. */
  predicate DistinctNames(ds: seq<Decl>) {
    forall i, j :: 0 <= i < j < |ds| ==> ds[i].name != ds[j].name
  }

  /** None of the declarations reuses a name the table already has. */
  predicate Fresh(st: SymTab, ds: seq<Decl>) {
    forall i :: 0 <= i < |ds| ==> ds[i].name !in st
  }

  /** The names the declarations introduce. */
  function DeclaredNames(ds: seq<Decl>): (r: set<string>) {
    set i | 0 <= i < |ds| :: ds[i].name
  }

  /**
   * The declaration loop, one declaration at a time: a name already in the
   * table is an error, any other name is added with its type.
   */
  function AddDecls(st: SymTab, ds: seq<Decl>): (r: Result<SymTab>)
    ensures r.Success? ==> st.Keys <= r.value.Keys
    decreases |ds|
  {
    if ds == [] then Success(st)
    else if ds[0].name in st then Failure(DuplicateDeclaration(ds[0].name))
    else AddDecls(st[ds[0].name := ds[0].ty], ds[1..])
  }

  function BuildSymtab(p: Program): (r: Result<SymTab>) {
    AddDecls(map[], p.decls)
  }

  lemma DistinctTail(st: SymTab, ds: seq<Decl>)
    requires ds != [] && ds[0].name !in st
    ensures (DistinctNames(ds) && Fresh(st, ds))
            <==> (DistinctNames(ds[1..]) && Fresh(st[ds[0].name := ds[0].ty], ds[1..]))
  {
    var st' := st[ds[0].name := ds[0].ty];
    if DistinctNames(ds[1..]) && Fresh(st', ds[1..]) {
      forall i, j | 0 <= i < j < |ds|
        ensures ds[i].name != ds[j].name
      {
        if i == 0 {
          assert ds[j] == ds[1..][j - 1];
        } else {
          assert ds[i] == ds[1..][i - 1] && ds[j] == ds[1..][j - 1];
        }
      }
      forall i | 0 <= i < |ds|
        ensures ds[i].name !in st
      {
        if i > 0 {
          assert ds[i] == ds[1..][i - 1];
        }
      }
    }
  }

  /** The table is built exactly when the names are pairwise distinct and new to it. */
  lemma {:induction false} AddDeclsSucceeds(st: SymTab, ds: seq<Decl>)
    ensures AddDecls(st, ds).Success? <==> DistinctNames(ds) && Fresh(st, ds)
    decreases |ds|
  {
    if ds != [] {
      if ds[0].name !in st {
        DistinctTail(st, ds);
        AddDeclsSucceeds(st[ds[0].name := ds[0].ty], ds[1..]);
      }
    }
  }

  lemma DeclaredNamesCons(ds: seq<Decl>)
    requires ds != []
    ensures DeclaredNames(ds) == {ds[0].name} + DeclaredNames(ds[1..])
  {
    forall x | x in DeclaredNames(ds)
      ensures x in {ds[0].name} + DeclaredNames(ds[1..])
    {
      var i :| 0 <= i < |ds| && ds[i].name == x;
      if i > 0 {
        assert ds[1..][i - 1] == ds[i];
      }
    }
    forall x | x in DeclaredNames(ds[1..])
      ensures x in DeclaredNames(ds)
    {
      var i :| 0 <= i < |ds[1..]| && ds[1..][i].name == x;
      assert ds[i + 1] == ds[1..][i];
    }
  }

  /** A successful build holds the old names plus the declared ones, one entry per declaration. */
  lemma AddDeclsKeys(st: SymTab, ds: seq<Decl>)
    requires AddDecls(st, ds).Success?
    ensures AddDecls(st, ds).value.Keys == st.Keys + DeclaredNames(ds)
    ensures |AddDecls(st, ds).value| == |st| + |ds|
  {
    AddDeclsKeySet(st, ds);
    AddDeclsSize(st, ds);
  }

  lemma {:induction false} AddDeclsKeySet(st: SymTab, ds: seq<Decl>)
    requires AddDecls(st, ds).Success?
    ensures AddDecls(st, ds).value.Keys == st.Keys + DeclaredNames(ds)
    decreases |ds|
  {
    if ds != [] {
      AddDeclsKeySet(st[ds[0].name := ds[0].ty], ds[1..]);
      DeclaredNamesCons(ds);
    } else {
      assert DeclaredNames(ds) == {};
    }
  }

  lemma {:induction false} AddDeclsSize(st: SymTab, ds: seq<Decl>)
    requires AddDecls(st, ds).Success?
    ensures |AddDecls(st, ds).value| == |st| + |ds|
    decreases |ds|
  {
    if ds != [] {
      AddDeclsSize(st[ds[0].name := ds[0].ty], ds[1..]);
    }
  }

  /** ... keeps every old entry and maps each declared name to its declared type. */
  lemma {:induction false} AddDeclsEntries(st: SymTab, ds: seq<Decl>)
    requires AddDecls(st, ds).Success?
    ensures forall x :: x in st ==> x in AddDecls(st, ds).value && AddDecls(st, ds).value[x] == st[x]
    ensures forall i :: 0 <= i < |ds| ==> ds[i].name in AddDecls(st, ds).value && AddDecls(st, ds).value[ds[i].name] == ds[i].ty
    decreases |ds|
  {
    if ds != [] {
      var st' := st[ds[0].name := ds[0].ty];
      AddDeclsEntries(st', ds[1..]);
      var r := AddDecls(st, ds).value;
      assert r == AddDecls(st', ds[1..]).value;
      forall x | x in st
        ensures x in r && r[x] == st[x]
      {
        assert x in st' && st'[x] == st[x];
      }
      forall i | 0 <= i < |ds|
        ensures ds[i].name in r && r[ds[i].name] == ds[i].ty
      {
        if i > 0 {
          assert ds[i] == ds[1..][i - 1];
        } else {
          assert ds[0].name in st';
        }
      }
    }
  }

  /**
   * A failed build names the first offending declaration: every declaration
   * before it was accepted, and its name is already in the table or
   * declared earlier.
   */
  lemma {:induction false} AddDeclsFirstDuplicate(st: SymTab, ds: seq<Decl>)
    requires AddDecls(st, ds).Failure?
    ensures exists j :: (0 <= j < |ds|
      && AddDecls(st, ds).error == DuplicateDeclaration(ds[j].name)
      && DistinctNames(ds[..j]) && Fresh(st, ds[..j])
      && (ds[j].name in st || exists i :: 0 <= i < j && ds[i].name == ds[j].name))
    decreases |ds|
  {
    if ds[0].name in st {
      assert ds[..0] == [];
      assert AddDecls(st, ds).error == DuplicateDeclaration(ds[0].name);
    } else {
      var st' := st[ds[0].name := ds[0].ty];
      AddDeclsFirstDuplicate(st', ds[1..]);
      var j :| 0 <= j < |ds[1..]|
        && AddDecls(st', ds[1..]).error == DuplicateDeclaration(ds[1..][j].name)
        && DistinctNames(ds[1..][..j]) && Fresh(st', ds[1..][..j])
        && (ds[1..][j].name in st' || exists i :: 0 <= i < j && ds[1..][i].name == ds[1..][j].name);
      var pre := ds[..j + 1];
      assert pre[1..] == ds[1..][..j];
      assert pre[0] == ds[0];
      DistinctTail(st, pre);
      if ds[1..][j].name in st' && ds[1..][j].name !in st {
        assert ds[0].name == ds[j + 1].name;
      } else if ds[1..][j].name !in st {
        var i :| 0 <= i < j && ds[1..][i].name == ds[1..][j].name;
        assert ds[i + 1].name == ds[j + 1].name;
      }
    }
  }

  /** build_symtab: succeeds iff no name is declared twice, and then maps each declared name to its type. */
  lemma BuildSymtabSpec(p: Program)
    ensures BuildSymtab(p).Success? <==> DistinctNames(p.decls)
    ensures BuildSymtab(p).Success? ==>
      && BuildSymtab(p).value.Keys == DeclaredNames(p.decls)
      && |BuildSymtab(p).value| == |p.decls|
      && forall i :: 0 <= i < |p.decls| ==> BuildSymtab(p).value[p.decls[i].name] == p.decls[i].ty
  {
    AddDeclsSucceeds(map[], p.decls);
    if BuildSymtab(p).Success? {
      AddDeclsKeys(map[], p.decls);
      AddDeclsEntries(map[], p.decls);
    }
  }

  /** On a duplicate, the error names a variable declared earlier in the list. */
  lemma BuildSymtabRejectsFirstDuplicate(p: Program)
    requires BuildSymtab(p).Failure?
    ensures exists i, j :: (0 <= i < j < |p.decls|
      && p.decls[i].name == p.decls[j].name
      && BuildSymtab(p).error == DuplicateDeclaration(p.decls[j].name)
      && DistinctNames(p.decls[..j]))
  {
    AddDeclsFirstDuplicate(map[], p.decls);
  }

  /** `qs` lists the declarations of `ps` in the order `perm` picks them. */
  predicate Permuted(ps: seq<Decl>, qs: seq<Decl>, perm: seq<nat>) {
    && |perm| == |ps| == |qs|
    && (forall k :: 0 <= k < |perm| ==> perm[k] < |ps| && qs[k] == ps[perm[k]])
    && (forall k, l :: 0 <= k < l < |perm| ==> perm[k] != perm[l])
  }

  lemma PermutedNames(ps: seq<Decl>, qs: seq<Decl>, perm: seq<nat>)
    requires Permuted(ps, qs, perm) && DistinctNames(ps)
    ensures DistinctNames(qs)
    ensures DeclaredNames(qs) <= DeclaredNames(ps)
  {
    forall k, l | 0 <= k < l < |qs|
      ensures qs[k].name != qs[l].name
    {
      if perm[k] < perm[l] {
        assert ps[perm[k]].name != ps[perm[l]].name;
      } else {
        assert ps[perm[l]].name != ps[perm[k]].name;
      }
    }
    forall x | x in DeclaredNames(qs)
      ensures x in DeclaredNames(ps)
    {
      var k :| 0 <= k < |qs| && qs[k].name == x;
      assert ps[perm[k]].name == x;
    }
  }

  /** Without duplicates, the table does not depend on the order of the declarations. */
  lemma BuildSymtabOrderIrrelevant(p: Program, q: Program, perm: seq<nat>)
    requires Permuted(p.decls, q.decls, perm)
    requires BuildSymtab(p).Success?
    ensures BuildSymtab(q) == BuildSymtab(p)
  {
    PermutedKeys(p, q, perm);
    var m := BuildSymtab(p).value;
    var m' := BuildSymtab(q).value;
    PermutedValues(p, q, perm);
    SameEntries(m', m);
  }

  lemma PermutedKeys(p: Program, q: Program, perm: seq<nat>)
    requires Permuted(p.decls, q.decls, perm)
    requires BuildSymtab(p).Success?
    ensures BuildSymtab(q).Success?
    ensures BuildSymtab(q).value.Keys == BuildSymtab(p).value.Keys == DeclaredNames(q.decls)
  {
    BuildSymtabSpec(p);
    PermutedNames(p.decls, q.decls, perm);
    BuildSymtabSpec(q);
    SubsetOfSameSize(BuildSymtab(q).value.Keys, BuildSymtab(p).value.Keys);
  }

  lemma PermutedValues(p: Program, q: Program, perm: seq<nat>)
    requires Permuted(p.decls, q.decls, perm)
    requires BuildSymtab(p).Success? && BuildSymtab(q).Success?
    requires BuildSymtab(q).value.Keys == BuildSymtab(p).value.Keys == DeclaredNames(q.decls)
    ensures forall x :: x in BuildSymtab(p).value ==> BuildSymtab(q).value[x] == BuildSymtab(p).value[x]
  {
    AddDeclsEntries(map[], p.decls);
    AddDeclsEntries(map[], q.decls);
    PermutedEntries(p.decls, q.decls, perm, BuildSymtab(p).value, BuildSymtab(q).value);
  }

  lemma PermutedEntries(ps: seq<Decl>, qs: seq<Decl>, perm: seq<nat>, m: SymTab, m': SymTab)
    requires Permuted(ps, qs, perm)
    requires m.Keys == m'.Keys == DeclaredNames(qs)
    requires forall i :: 0 <= i < |ps| ==> ps[i].name in m && m[ps[i].name] == ps[i].ty
    requires forall i :: 0 <= i < |qs| ==> m'[qs[i].name] == qs[i].ty
    ensures forall x :: x in m ==> m'[x] == m[x]
  {
    forall x | x in m
      ensures m'[x] == m[x]
    {
      var k :| 0 <= k < |qs| && qs[k].name == x;
      assert m[ps[perm[k]].name] == ps[perm[k]].ty;
    }
  }

  lemma SameEntries(a: SymTab, b: SymTab)
    requires a.Keys == b.Keys
    requires forall x :: x in b ==> a[x] == b[x]
    ensures a == b
  {
  }

  lemma SubsetSize<T>(a: set<T>, b: set<T>)
    requires a <= b
    ensures |a| <= |b|
    decreases a
  {
    if a != {} {
      var x :| x in a;
      SubsetSize(a - {x}, b - {x});
    }
  }

  lemma SubsetOfSameSize<T>(a: set<T>, b: set<T>)
    requires a <= b && |a| == |b|
    ensures a == b
  {
    if a != b {
      assert !(b <= a);
      var x :| x in b && x !in a;
      SubsetSize(a, b - {x});
    }
  }
}
