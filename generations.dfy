/**
 * The two older generations side by side: the severity the middle generation
 * (internal/ast/ast.go) stores for the function lists is the one the
 * oldest (pkg/ast/ast.go) returns, and both compare only the first
 * `|previous|` latest functions.
 */
module Generations {
  import opened Wrappers
  import opened GoSyntax
  import Diffs
  import Severity
  import LegacyEquality
  import LegacyAst
  import PkgAst
  import Funcs

  /** A row holds a "signature changed" change, and only such changes, exactly when some previous function breaks against `l`. */
  lemma {:induction false} RowMember(env: Env, P: seq<FuncDecl>, l: FuncDecl, c: Diffs.Change)
    ensures c in LegacyAst.RowChanges(env, P, l) <==> c == LegacyAst.SignatureChanged() && exists j :: 0 <= j < |P| && LegacyAst.DeclChanges(env, P[j], l) != []
    decreases |P|
  {
    if P != [] {
      var n := |P| - 1;
      RowMember(env, P[..n], l, c);
      if exists j :: 0 <= j < |P| && LegacyAst.DeclChanges(env, P[j], l) != [] {
        var j :| 0 <= j < |P| && LegacyAst.DeclChanges(env, P[j], l) != [];
        if j < n {
          assert P[..n][j] == P[j];
        }
      } else {
        forall j | 0 <= j < n ensures LegacyAst.DeclChanges(env, P[..n][j], l) == [] {
          assert P[..n][j] == P[j];
        }
      }
    }
  }

  /** The rows hold "signature changed" changes exactly when some same-named pair of functions changed signature. */
  lemma {:induction false} GridMember(env: Env, P: seq<FuncDecl>, Ls: seq<FuncDecl>, c: Diffs.Change)
    ensures c in LegacyAst.GridChanges(env, P, Ls) <==> c == LegacyAst.SignatureChanged() && PkgAst.SignatureBroken(env, P, Ls)
    decreases |Ls|
  {
    if Ls != [] {
      var n := |Ls| - 1;
      GridMember(env, P, Ls[..n], c);
      RowMember(env, P, Ls[n], c);
      BrokenSplit(env, P, Ls);
    }
  }

  /** A same-named pair changed signature in `Ls` exactly when it did in all but the last row, or in the last. */
  lemma BrokenSplit(env: Env, P: seq<FuncDecl>, Ls: seq<FuncDecl>)
    requires Ls != []
    ensures PkgAst.SignatureBroken(env, P, Ls)
        <==> PkgAst.SignatureBroken(env, P, Ls[..|Ls| - 1])
             || exists j :: 0 <= j < |P| && LegacyAst.DeclChanges(env, P[j], Ls[|Ls| - 1]) != []
  {
    var n := |Ls| - 1;
    if PkgAst.SignatureBroken(env, P, Ls) {
      var i, j :| 0 <= i < |Ls| && 0 <= j < |P| && PkgAst.CompareFuncDecl(env, P[j], Ls[i]) == Severity.Major;
      if i < n {
        assert Ls[..n][i] == Ls[i];
      } else {
        assert LegacyAst.DeclChanges(env, P[j], Ls[n]) != [];
      }
    }
    if PkgAst.SignatureBroken(env, P, Ls[..n]) {
      var i, j :| 0 <= i < n && 0 <= j < |P| && PkgAst.CompareFuncDecl(env, P[j], Ls[..n][i]) == Severity.Major;
      assert Ls[..n][i] == Ls[i];
    }
    if exists j :: 0 <= j < |P| && LegacyAst.DeclChanges(env, P[j], Ls[n]) != [] {
      var j :| 0 <= j < |P| && LegacyAst.DeclChanges(env, P[j], Ls[n]) != [];
      assert PkgAst.CompareFuncDecl(env, P[j], Ls[n]) == Severity.Major;
    }
  }

  /** A diff holding only "signature changed" changes is Major when non-empty and Patch when empty. */
  lemma OnlyMajors(cs: seq<Diffs.Change>)
    requires forall k :: 0 <= k < |cs| ==> cs[k] == LegacyAst.SignatureChanged()
    ensures Diffs.TypeOf(cs) == if cs == [] then Severity.Patch else Severity.Major
  {
    var t := Diffs.TypeOf(cs);
    if cs != [] {
      assert Severity.AtMost(cs[0].typ, t);
      Severity.RankInjective(t, Severity.Major);
    }
  }

  /** The rows' severity is the pkg/ast grid value from Patch. */
  lemma GridSeverity(env: Env, P: seq<FuncDecl>, Ls: seq<FuncDecl>)
    ensures Diffs.TypeOf(LegacyAst.GridChanges(env, P, Ls)) == PkgAst.Grid(env, P, Ls, Severity.Patch)
  {
    var g := LegacyAst.GridChanges(env, P, Ls);
    forall k | 0 <= k < |g| ensures g[k] == LegacyAst.SignatureChanged() {
      GridMember(env, P, Ls, g[k]);
    }
    OnlyMajors(g);
    PkgAst.GridValue(env, P, Ls, Severity.Patch);
    if g != [] {
      GridMember(env, P, Ls, g[0]);
    } else if PkgAst.SignatureBroken(env, P, Ls) {
      GridMember(env, P, Ls, LegacyAst.SignatureChanged());
    }
  }

  /**
   * The two older generations agree: the severity of what this
   * generation's `compareFuncs` stores is what pkg/ast's `compareFuncs`
   * returns for the same extracted lists.
   */
  lemma AgreesWithPkg(env: Env, P: seq<FuncDecl>, L: seq<FuncDecl>)
    ensures Diffs.TypeOf(LegacyAst.FuncsChanges(env, P, L)) == PkgAst.FuncsDifference(env, P, L)
  {
    var cs := LegacyAst.FuncsChanges(env, P, L);
    if |L| < |P| {
      assert cs[..0] == [];
    } else if P != [] {
      var g := LegacyAst.GridChanges(env, P, L[..|P|]);
      GridSeverity(env, P, L[..|P|]);
      var a := if |L| > |P| then [LegacyAst.Note(Severity.Minor, "an exported function has been added")] else [];
      assert cs == Diffs.Merge(g, a);
      Diffs.TypeOfMerge(g, a);
      if a != [] {
        assert a[..0] == [];
      }
    }
  }

  /**
   * Only the first `|P|` latest functions are compared: a previous
   * function `f` whose signature changes but which moves behind a new
   * function `g` goes unnoticed, and the result is only the Minor
   * addition.
   */
  lemma MovedChangeMissed(env: Env, f: FuncDecl, g: FuncDecl, f': FuncDecl)
    requires g.name.name != f.name.name && f'.name.name == f.name.name
    requires !LegacyEquality.EqualFuncType(env, Some(f.typ), Some(f'.typ))
    ensures LegacyAst.FuncsChanges(env, [f], [g, f']) == [LegacyAst.Note(Severity.Minor, "an exported function has been added")]
    ensures LegacyAst.DeclChanges(env, f, f') != []
    ensures PkgAst.FuncsDifference(env, [f], [g, f']) == Severity.Minor
  {
    assert [g, f'][..1] == [g];
    assert [g][..0] == [];
    assert [f][..0] == [];
    assert LegacyAst.DeclChanges(env, f, g) == [];
    assert LegacyAst.RowChanges(env, [f], g) == [];
    assert LegacyAst.GridChanges(env, [f], [g]) == [];
    assert PkgAst.CompareFuncDecl(env, f, g) == Severity.None;
    assert [f][1..] == [] && [g][1..] == [];
    assert PkgAst.Row(env, [f], g, Severity.Patch) == Severity.Patch;
    assert PkgAst.Grid(env, [f], [g], Severity.Patch) == Severity.Patch;
  }

  /**
   * A package compared with itself stores nothing when function names are
   * unique and printing compares each expression equal to itself.
   */
  lemma SelfStoresNothing(env: Env, n: Node)
    requires forall x: Expr :: env.sprintEqual(x, x)
    requires forall i, k :: 0 <= i < |Funcs.Funcs(Some(n), env)| && 0 <= k < |Funcs.Funcs(Some(n), env)| ==>
               (Funcs.Funcs(Some(n), env)[i].name.name == Funcs.Funcs(Some(n), env)[k].name.name ==> i == k)
    ensures LegacyAst.CompareChanges(Some(n), Some(n), env) == []
  {
    var P := Funcs.Funcs(Some(n), env);
    if P != [] {
      assert P[..|P|] == P;
      var g := LegacyAst.GridChanges(env, P, P);
      if g != [] {
        GridMember(env, P, P, g[0]);
        var i, j :| 0 <= i < |P| && 0 <= j < |P| && PkgAst.CompareFuncDecl(env, P[j], P[i]) == Severity.Major;
        LegacyEquality.FuncTypeReflexive(env, Some(P[i].typ));
      }
      assert LegacyAst.FuncsChanges(env, P, P) == g + [];
    }
  }
}
