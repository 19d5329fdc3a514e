/**
 * pkg/ast/ast.go, the oldest generation: a single severity instead of a
 * list of changes, folded with `set` (the larger of two severities), and a
 * function comparison driven by the number of exported functions.
 */
module PkgAst {
  import opened Wrappers
  import opened GoSyntax
  import Severity
  import Funcs
  import Inspect
  import LegacyEquality

  /** `compareFuncDecl`: Major for the same name with another signature, otherwise None. */
  function CompareFuncDecl(env: Env, a: FuncDecl, b: FuncDecl): (r: Severity.Type)
    ensures r == Severity.Major || r == Severity.None
    ensures r == Severity.Major <==> a.name.name == b.name.name && !LegacyEquality.EqualFuncType(env, Some(a.typ), Some(b.typ))
  {
    if !LegacyEquality.EqualIdent(a.name, b.name) then Severity.None
    else if !LegacyEquality.EqualFuncType(env, Some(a.typ), Some(b.typ)) then Severity.Max(Severity.None, Severity.Major)
    else Severity.None
  }

  /** Row `l` of the nested loops: `set` over `compareFuncDecl(p, l)` for the previous functions `P`. */
  function Row(env: Env, P: seq<FuncDecl>, l: FuncDecl, acc: Severity.Type): Severity.Type
    decreases |P|
  {
    if P == [] then acc else Row(env, P[1..], l, Severity.Max(acc, CompareFuncDecl(env, P[0], l)))
  }

  /** The rows `Ls`, one after the other, starting from `acc`. */
  function Grid(env: Env, P: seq<FuncDecl>, Ls: seq<FuncDecl>, acc: Severity.Type): Severity.Type
    decreases |Ls|
  {
    if Ls == [] then acc else Grid(env, P, Ls[1..], Row(env, P, Ls[0], acc))
  }

  /** What `compareFuncs` returns for the extracted lists `P` and `L`. */
  function FuncsDifference(env: Env, P: seq<FuncDecl>, L: seq<FuncDecl>): Severity.Type {
    if |L| < |P| then Severity.Major
    else if P == [] then Severity.Patch
    else
      var g := Grid(env, P, L[..|P|], Severity.Patch);
      if |L| > |P| then Severity.Max(g, Severity.Minor) else g
  }

  /** Two functions with the same name and another signature. */
  ghost predicate SignatureBroken(env: Env, P: seq<FuncDecl>, Ls: seq<FuncDecl>) {
    exists i, j :: 0 <= i < |Ls| && 0 <= j < |P| && CompareFuncDecl(env, P[j], Ls[i]) == Severity.Major
  }

  /** A row folds its accumulator with Major exactly when some previous function breaks against `l`. */
  lemma {:induction false} RowValue(env: Env, P: seq<FuncDecl>, l: FuncDecl, acc: Severity.Type)
    ensures Row(env, P, l, acc)
         == if exists j :: 0 <= j < |P| && CompareFuncDecl(env, P[j], l) == Severity.Major
            then Severity.Major else acc
    decreases |P|
  {
    if P != [] {
      var acc' := Severity.Max(acc, CompareFuncDecl(env, P[0], l));
      RowValue(env, P[1..], l, acc');
      if exists j :: 0 <= j < |P| && CompareFuncDecl(env, P[j], l) == Severity.Major {
        var j :| 0 <= j < |P| && CompareFuncDecl(env, P[j], l) == Severity.Major;
        if j > 0 {
          assert P[1..][j - 1] == P[j];
        }
      } else {
        forall j | 0 <= j < |P[1..]| ensures CompareFuncDecl(env, P[1..][j], l) != Severity.Major {
          assert P[1..][j] == P[j + 1];
        }
      }
    }
  }

  /** From Patch, the grid is Major when some same-named pair changed signature, and Patch otherwise. */
  lemma {:induction false} GridValue(env: Env, P: seq<FuncDecl>, Ls: seq<FuncDecl>, acc: Severity.Type)
    requires acc == Severity.Patch || acc == Severity.Major
    ensures Grid(env, P, Ls, acc) == if acc == Severity.Major || SignatureBroken(env, P, Ls) then Severity.Major else Severity.Patch
    decreases |Ls|
  {
    if Ls != [] {
      RowValue(env, P, Ls[0], acc);
      var acc' := Row(env, P, Ls[0], acc);
      GridValue(env, P, Ls[1..], acc');
      if SignatureBroken(env, P, Ls) {
        var i, j :| 0 <= i < |Ls| && 0 <= j < |P| && CompareFuncDecl(env, P[j], Ls[i]) == Severity.Major;
        if i > 0 {
          assert Ls[1..][i - 1] == Ls[i];
        }
      }
    }
  }

  /** `compareFuncs`: the nested loops over the extracted lists. */
  method CompareFuncs(env: Env, previous: Node, latest: Node) returns (diff: Severity.Type)
    ensures diff == FuncsDifference(env, Funcs.Funcs(Some(previous), env), Funcs.Funcs(Some(latest), env))
  {
    var P := Funcs.ExtractFuncs(Some(previous), env);
    var L := Funcs.ExtractFuncs(Some(latest), env);
    diff := Severity.Patch;
    if |L| < |P| {
      return Severity.Major;
    }
    if P == [] {
      return;
    }
    var i := 0;
    while i < |L|
      invariant 0 <= i <= |P|
      invariant Grid(env, P, L[..|P|], Severity.Patch) == Grid(env, P, L[i..|P|], diff)
    {
      var j := 0;
      ghost var start := diff;
      while j < |P|
        invariant 0 <= j <= |P|
        invariant j > 0 ==> i < |P|
        invariant j == 0 ==> diff == start
        invariant i < |P| ==> Row(env, P, L[i], start) == Row(env, P[j..], L[i], diff)
      {
        if i >= |P| {
          assert L[i..|P|] == [];
          return Severity.Max(diff, Severity.Minor);
        }
        assert P[j..][1..] == P[j + 1..];
        diff := Severity.Max(diff, CompareFuncDecl(env, P[j], L[i]));
        j := j + 1;
      }
      assert L[i..|P|][1..] == L[i + 1..|P|];
      i := i + 1;
    }
  }

  /** `compose(previous, latest)(comparators...)`: `set` folded over the comparators' results, from None. */
  method Compose(results: seq<Severity.Type>) returns (diff: Severity.Type)
    ensures forall k :: 0 <= k < |results| ==> Severity.AtMost(results[k], diff)
    ensures diff == Severity.None || exists k :: 0 <= k < |results| && results[k] == diff
  {
    diff := Severity.None;
    var k := 0;
    while k < |results|
      invariant 0 <= k <= |results|
      invariant forall k' :: 0 <= k' < k ==> Severity.AtMost(results[k'], diff)
      invariant diff == Severity.None || exists k' :: 0 <= k' < k && results[k'] == diff
    {
      diff := Severity.Max(diff, results[k]);
      k := k + 1;
    }
  }

  /** `Compare`: `compose` over the single comparator `compareFuncs`, so its result is that comparator's. */
  method Compare(env: Env, previous: Node, latest: Node) returns (diff: Severity.Type)
    ensures diff == FuncsDifference(env, Funcs.Funcs(Some(previous), env), Funcs.Funcs(Some(latest), env))
  {
    var r := CompareFuncs(env, previous, latest);
    diff := Compose([r]);
    assert [r][0] == r;
    Severity.RankInjective(r, Severity.None);
  }

  /** The result is never None. */
  lemma AtLeastPatch(env: Env, P: seq<FuncDecl>, L: seq<FuncDecl>)
    ensures Severity.AtMost(Severity.Patch, FuncsDifference(env, P, L))
  {
    if |L| >= |P| && P != [] {
      GridValue(env, P, L[..|P|], Severity.Patch);
    }
  }

  /** Fewer exported functions in latest than in previous: Major. */
  lemma FewerIsMajor(env: Env, P: seq<FuncDecl>, L: seq<FuncDecl>)
    requires |L| < |P|
    ensures FuncsDifference(env, P, L) == Severity.Major
  {
  }

  /** No exported functions in previous: Patch, whatever latest holds. */
  lemma NoPreviousIsPatch(env: Env, L: seq<FuncDecl>)
    ensures FuncsDifference(env, [], L) == Severity.Patch
  {
  }

  /** More exported functions in latest than in a non-empty previous: Minor, or Major when a signature broke. */
  lemma MoreIsMinorOrMajor(env: Env, P: seq<FuncDecl>, L: seq<FuncDecl>)
    requires P != [] && |L| > |P|
    ensures FuncsDifference(env, P, L)
         == if SignatureBroken(env, P, L[..|P|]) then Severity.Major else Severity.Minor
  {
    GridValue(env, P, L[..|P|], Severity.Patch);
  }

  /**
   * As many exported functions on both sides: Major when some latest
   * function has the name of a previous one and another signature, Patch
   * otherwise. Every pair is compared, not only those in the same position.
   */
  lemma SameCountIsPatchOrMajor(env: Env, P: seq<FuncDecl>, L: seq<FuncDecl>)
    requires P != [] && |L| == |P|
    ensures FuncsDifference(env, P, L) == if SignatureBroken(env, P, L) then Severity.Major else Severity.Patch
  {
    assert L[..|P|] == L;
    GridValue(env, P, L, Severity.Patch);
  }

  /** A package compared with itself is a Patch when printing compares each expression equal to itself. */
  lemma SelfIsPatch(env: Env, n: Node)
    requires forall x: Expr :: env.sprintEqual(x, x)
    requires forall i, k :: 0 <= i < |Funcs.Funcs(Some(n), env)| && 0 <= k < |Funcs.Funcs(Some(n), env)| ==>
               (Funcs.Funcs(Some(n), env)[i].name.name == Funcs.Funcs(Some(n), env)[k].name.name ==> i == k)
    ensures FuncsDifference(env, Funcs.Funcs(Some(n), env), Funcs.Funcs(Some(n), env)) == Severity.Patch
  {
    var P := Funcs.Funcs(Some(n), env);
    if P != [] {
      SameCountIsPatchOrMajor(env, P, P);
      if SignatureBroken(env, P, P) {
        var i, j :| 0 <= i < |P| && 0 <= j < |P| && CompareFuncDecl(env, P[j], P[i]) == Severity.Major;
        LegacyEquality.FuncTypeReflexive(env, Some(P[i].typ));
      }
    }
  }

  /** An unexported function added anywhere in the tree leaves the extracted lists, hence the result, unchanged. */
  lemma UnexportedInvisible(env: Env, k: NodeKind, cs: seq<Node>, f: FuncDecl, latest: Node)
    requires !env.exported(f.name.name)
    ensures Funcs.Funcs(Some(Node(k, cs + [Node(FuncDeclNode(f), [])])), env) == Funcs.Funcs(Some(Node(k, cs)), env)
    ensures FuncsDifference(env, Funcs.Funcs(Some(Node(k, cs + [Node(FuncDeclNode(f), [])])), env), Funcs.Funcs(Some(latest), env))
         == FuncsDifference(env, Funcs.Funcs(Some(Node(k, cs)), env), Funcs.Funcs(Some(latest), env))
  {
    var leaf := Node(FuncDeclNode(f), []);
    Funcs.FuncsInOrder(k, cs, leaf, env);
    assert Inspect.Visit(leaf, Inspect.Always()) == [FuncDeclNode(f)];
    assert Funcs.Funcs(Some(leaf), env) == [];
  }
}
