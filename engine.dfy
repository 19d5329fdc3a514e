/**
 * The top-level `Compare` of the newest generation. Its source is not part
 * of this model, so its shape here is this model's own assumption: two
 * absent snapshots give the empty diff; otherwise the package-presence,
 * value-spec, function and type-spec differs all run, in that order, and
 * their diffs are merged. The value-spec differ is the one of
 * internal/ast/value-spec.go, not the one of internal/ast/const.go, which
 * declares a `compareValueSpec` of the same name and so cannot be compiled
 * beside it. This departs from the older `Compare` of internal/ast/ast.go,
 * which returns the presence change alone when one side is absent and
 * otherwise composes `compareFuncs` only.
 */
module Engine {
  import opened Wrappers
  import opened GoSyntax
  import opened Diffs
  import Severity
  import Packages
  import ValueSpecs
  import Funcs
  import TypeSpecs
  import Equality
  import Inspect

  /**
   * The assumed composition. With one side absent every differ still runs,
   * so a removed package reports its own removal and the removal of each
   * exported function, type and value it held.
   */
  function Composed(previous: Option<Node>, latest: Option<Node>, env: Env): Diff {
    if previous.None? && latest.None? then []
    else
      Merge(Merge(Merge(Packages.ComparePackage(previous, latest),
                        ValueSpecs.ValueSpecsDiff(previous, latest, env)),
                  Funcs.FuncsDiff(previous, latest, env)),
            TypeSpecs.TypeSpecsDiff(previous, latest, env))
  }

  /** `Compare`: each differ's diff is merged into the result in turn. */
  method Compare(previous: Option<Node>, latest: Option<Node>, env: Env) returns (diff: Diff)
    ensures diff == Composed(previous, latest, env)
  {
    diff := [];
    if previous.None? && latest.None? {
      return;
    }
    diff := Merge(diff, Packages.ComparePackage(previous, latest));
    var d := ValueSpecs.CompareValueSpec(previous, latest, env);
    diff := Merge(diff, d);
    d := Funcs.CompareFuncs(previous, latest, env);
    diff := Merge(diff, d);
    d := TypeSpecs.CompareTypeSpec(previous, latest, env);
    diff := Merge(diff, d);
  }

  /** Comparing two absent snapshots is a Patch. */
  lemma BothAbsentIsPatch(env: Env)
    ensures Composed(None, None, env) == []
    ensures TypeOf(Composed(None, None, env)) == Severity.Patch
  {
  }

  /** The severity of the comparison is the largest severity any differ reports. */
  lemma SeverityIsMaxOfDiffers(previous: Option<Node>, latest: Option<Node>, env: Env)
    requires previous.Some? || latest.Some?
    ensures TypeOf(Composed(previous, latest, env))
         == Severity.Max(Severity.Max(Severity.Max(TypeOf(Packages.ComparePackage(previous, latest)),
                                                   TypeOf(ValueSpecs.ValueSpecsDiff(previous, latest, env))),
                                      TypeOf(Funcs.FuncsDiff(previous, latest, env))),
                         TypeOf(TypeSpecs.TypeSpecsDiff(previous, latest, env)))
  {
    var p := Packages.ComparePackage(previous, latest);
    var v := ValueSpecs.ValueSpecsDiff(previous, latest, env);
    var f := Funcs.FuncsDiff(previous, latest, env);
    var t := TypeSpecs.TypeSpecsDiff(previous, latest, env);
    TypeOfMerge(p, v);
    TypeOfMerge(Merge(p, v), f);
    TypeOfMerge(Merge(Merge(p, v), f), t);
  }

  /** An exported function removed from a package makes the whole comparison Major. */
  lemma RemovedFunctionIsMajor(previous: Option<Node>, latest: Option<Node>, env: Env, i: nat)
    requires i < |Funcs.Funcs(previous, env)| && !Funcs.InternalReceiver(Funcs.Funcs(previous, env)[i].recv, env)
    requires forall k :: 0 <= k < |Funcs.Funcs(latest, env)| ==>
               !Funcs.Key()(Funcs.Funcs(previous, env)[i], Funcs.Funcs(latest, env)[k])
    ensures TypeOf(Composed(previous, latest, env)) == Severity.Major
  {
    Funcs.FunctionRemoved(previous, latest, env, i);
    assert previous.Some?;
    SeverityIsMaxOfDiffers(previous, latest, env);
    var pv := Severity.Max(TypeOf(Packages.ComparePackage(previous, latest)), TypeOf(ValueSpecs.ValueSpecsDiff(previous, latest, env)));
    Severity.MaxBounds(pv);
    Severity.MaxBounds(TypeOf(TypeSpecs.TypeSpecsDiff(previous, latest, env)));
  }

  /**
   * A package compared with itself is a Patch, under the conditions each
   * differ's own self-comparison lemma states.
   */
  lemma SelfCompareIsPatch(n: Node, env: Env)
    requires var P := Funcs.Funcs(Some(n), env);
             && (forall i, k :: 0 <= i < |P| && 0 <= k < |P| && i != k ==> !Funcs.Key()(P[i], P[k]))
             && (forall i :: 0 <= i < |P| ==>
                   Equality.HandledList(P[i].recv) && Equality.HandledSignature(P[i].typ))
    requires var T := TypeSpecs.TypeSpecs(Some(n), env);
             && (forall i, k :: 0 <= i < |T| && 0 <= k < |T| && i != k ==> T[i].name != T[k].name)
             && (forall i :: 0 <= i < |T| ==> env.equalTypeSpec(T[i], T[i]))
    requires var V := ValueSpecs.ValueSpecs(Some(n), env);
             && (forall i, k :: 0 <= i < |V| && 0 <= k < |V| ==> (env.equalNames(V[i].names, V[k].names) <==> i == k))
             && (forall i :: 0 <= i < |V| ==> env.equalValueSpec(V[i], V[i]))
    ensures Composed(Some(n), Some(n), env) == []
    ensures TypeOf(Composed(Some(n), Some(n), env)) == Severity.Patch
  {
    Funcs.SelfDiffIsPatch(Some(n), env);
    TypeSpecs.SelfDiffIsPatch(Some(n), env);
    ValueSpecs.SelfDiffIsPatch(Some(n), env);
  }

  /**
   * The self-comparison identity fails once a signature uses a form that
   * `equalExpr` does not handle (a channel or interface type, say): such a
   * function never equals itself, so its package compared with itself
   * reports "function signature has changed", which is Major.
   */
  lemma UnhandledSelfCompareIsMajor(n: Node, env: Env, i: nat)
    requires var P := Funcs.Funcs(Some(n), env);
             && i < |P|
             && (forall k :: i < k < |P| ==> !Funcs.Key()(P[i], P[k]))
             && Equality.HandledList(P[i].recv) && !Equality.HandledSignature(P[i].typ)
    ensures TypeOf(Composed(Some(n), Some(n), env)) == Severity.Major
  {
    var P := Funcs.Funcs(Some(n), env);
    Equality.ListReflexive(P[i].recv);
    Equality.SignatureReflexive(P[i].typ);
    Funcs.SignatureChanged(Some(n), Some(n), env, i, i);
    SeverityIsMaxOfDiffers(Some(n), Some(n), env);
    var pv := Severity.Max(TypeOf(Packages.ComparePackage(Some(n), Some(n))), TypeOf(ValueSpecs.ValueSpecsDiff(Some(n), Some(n), env)));
    Severity.MaxBounds(pv);
    Severity.MaxBounds(TypeOf(TypeSpecs.TypeSpecsDiff(Some(n), Some(n), env)));
  }

  /** `func F(c chan int)`, exported, alone in a package. */
  function ChanFunc(): FuncDecl {
    FuncDecl(NilList, Ident("F", None),
             FuncType(NilList, List([Field([Ident("c", None)], OtherExpr("ChanType"), None)]), NilList))
  }

  function ChanPackage(): Node {
    Node(PackageNode("p"), [Node(FuncDeclNode(ChanFunc()), [])])
  }

  /** The one function extracted from `ChanPackage`, whose parameter type is unhandled. */
  lemma ChanPackageFuncs(env: Env)
    requires env.exported("F")
    ensures Funcs.Funcs(Some(ChanPackage()), env) == [ChanFunc()]
    ensures !Equality.HandledSignature(ChanFunc().typ)
  {
    var leaf := Node(FuncDeclNode(ChanFunc()), []);
    Funcs.FuncsInOrder(PackageNode("p"), [], leaf, env);
    assert [] + [leaf] == [leaf];
    assert Inspect.Visit(Node(PackageNode("p"), []), Inspect.Always()) == [PackageNode("p")];
    assert Funcs.Funcs(Some(Node(PackageNode("p"), [])), env) == [];
    assert Inspect.Visit(leaf, Inspect.Always()) == [FuncDeclNode(ChanFunc())];
    assert Funcs.Funcs(Some(leaf), env) == [ChanFunc()];
    assert !Equality.HandledField(ChanFunc().typ.params.list[0]);
    assert !Equality.HandledList(ChanFunc().typ.params);
  }

  /** The package holding only `func F(c chan int)` is Major against itself. */
  lemma ChanParameterSelfCompareIsMajor(env: Env)
    requires env.exported("F")
    ensures TypeOf(Composed(Some(ChanPackage()), Some(ChanPackage()), env)) == Severity.Major
  {
    ChanPackageFuncs(env);
    UnhandledSelfCompareIsMajor(ChanPackage(), env, 0);
  }
}
