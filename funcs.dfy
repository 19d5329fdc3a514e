/**
 * internal/ast/func.go: the differ for functions and methods. Exported
 * function declarations are extracted from both snapshots and matched by
 * name and receiver list; every latest declaration is written into every
 * matching previous slot (there is no `break`), and each slot then yields
 * at most one change.
 */
module Funcs {
  import opened Wrappers
  import opened GoSyntax
  import opened Diffs
  import opened Matching
  import Severity
  import Equality
  import Inspect
  import Differ

  /** The extractor's closure: an exported function declaration is appended. */
  function Pick(env: Env): NodeKind -> Option<FuncDecl> {
    (k: NodeKind) => if k.FuncDeclNode? && env.exported(k.funcDecl.name.name) then Some(k.funcDecl) else None
  }

  /** What `extractFuncs` returns; its closure always descends. */
  function Funcs(node: Option<Node>, env: Env): seq<FuncDecl> {
    Inspect.Extracted(node, Inspect.Always(), Pick(env))
  }

  /** `extractFuncs`. */
  method ExtractFuncs(node: Option<Node>, env: Env) returns (result: seq<FuncDecl>)
    ensures result == Funcs(node, env)
  {
    result := Inspect.Collect(node, Inspect.Always(), Pick(env));
  }

  /**
   * The extracted functions are exactly the function declarations of the
   * tree whose names are exported, in walk order.
   */
  lemma FuncsExactly(n: Node, env: Env, f: FuncDecl)
    ensures f in Funcs(Some(n), env) <==> FuncDeclNode(f) in Inspect.Preorder(n) && env.exported(f.name.name)
  {
    var ks := Inspect.Preorder(n);
    Inspect.PickedMember(ks, Pick(env), f);
    if FuncDeclNode(f) in ks && env.exported(f.name.name) {
      var i :| 0 <= i < |ks| && ks[i] == FuncDeclNode(f);
      assert Pick(env)(ks[i]) == Some(f);
    }
  }

  /** A second subtree's functions follow the first's: extraction keeps the walk order. */
  lemma FuncsInOrder(k: NodeKind, cs: seq<Node>, c: Node, env: Env)
    ensures Funcs(Some(Node(k, cs + [c])), env) == Funcs(Some(Node(k, cs)), env) + Funcs(Some(c), env)
  {
    Inspect.VisitAppendChild(k, cs, c, Inspect.Always());
    Inspect.PickedAppend(Inspect.Visit(Node(k, cs), Inspect.Always()), Inspect.Visit(c, Inspect.Always()), Pick(env));
  }

  /** The name the removal rule reads off a receiver's type: `T`, `*T`, otherwise empty. */
  function ReceiverName(f: Field): (s: string)
    ensures f.typ.IdentExpr? ==> s == f.typ.ident.name
    ensures f.typ.Star? && f.typ.x.IdentExpr? ==> s == f.typ.x.ident.name
    ensures !f.typ.IdentExpr? && !(f.typ.Star? && f.typ.x.IdentExpr?) ==> s == ""
  {
    match f.typ
    case IdentExpr(t) => t.name
    case Star(IdentExpr(v)) => v.name
    case _ => ""
  }

  /** Some receiver's type name is unexported: a removed method of an internal type. */
  function InternalReceiver(recv: FieldList, env: Env): (b: bool)
    ensures recv.NilList? ==> !b
    ensures recv.List? && |recv.list| == 1 ==> (b <==> !env.exported(ReceiverName(recv.list[0])))
    ensures b ==> recv.List? && exists i :: 0 <= i < |recv.list| && !env.exported(ReceiverName(recv.list[i]))
  {
    recv.List? && exists i :: 0 <= i < |recv.list| && !env.exported(ReceiverName(recv.list[i]))
  }

  /** The declaration a change points at, when there is one. */
  function Ref(d: Option<FuncDecl>): Option<Decl> {
    if d.None? then None else Some(FuncRef(d.value))
  }

  /** `compareFuncDecl`: the rule for one slot. Go dereferences a nil `b` when both are nil. */
  function CompareFuncDecl(a: Option<FuncDecl>, b: Option<FuncDecl>, env: Env): (r: Diff)
    requires a.Some? || b.Some?
    ensures |r| <= 1
    ensures forall c :: c in r ==> c.previous == Ref(a) && c.latest == Ref(b)
    ensures a.None? ==> r == [Change(Severity.Minor, "function has been added", None, Ref(b))]
    ensures a.Some? && b.None? ==> (r == [] <==> InternalReceiver(a.value.recv, env))
    ensures a.Some? && b.None? && r != [] ==> r[0].typ == Severity.Major && r[0].reason == "function has been removed"
    ensures a.Some? && b.Some? ==> (r == [] <==> Equality.EqualSignature(a.value.typ, b.value.typ))
    ensures a.Some? && b.Some? && r != [] ==> r[0].typ == Severity.Major && r[0].reason == "function signature has changed"
  {
    if a.None? then
      Add([], [Change(Severity.Minor, "function has been added", None, Some(FuncRef(b.value)))])
    else if b.None? then
      if InternalReceiver(a.value.recv, env) then []
      else Add([], [Change(Severity.Major, "function has been removed", Some(FuncRef(a.value)), None)])
    else if !Equality.EqualFuncType(Some(a.value.typ), Some(b.value.typ)) then
      Add([], [Change(Severity.Major, "function signature has changed", Some(FuncRef(a.value)), Some(FuncRef(b.value)))])
    else []
  }

  /** The matcher's key: equal names, and receiver lists equal under `equalFieldList`. */
  function Key(): (key: (FuncDecl, FuncDecl) -> bool)
    ensures forall p, l :: key(p, l) ==> p.name == l.name
    ensures forall p, l :: key(p, l) ==> (p.recv.NilList? <==> l.recv.NilList?)
  {
    (p: FuncDecl, l: FuncDecl) => Equality.EqualIdent(p.name, l.name) && Equality.EqualFieldList(p.recv, l.recv)
  }

  function Rule(env: Env): Slot<FuncDecl> --> Diff {
    (s: Slot<FuncDecl>) requires Occupied(s) => CompareFuncDecl(s.previous, s.latest, env)
  }

  /** The diff `compareFuncs` returns. */
  function FuncsDiff(a: Option<Node>, b: Option<Node>, env: Env): Diff {
    Differ.Outcome(Funcs(a, env), Funcs(b, env), Key(), false, Rule(env))
  }

  /** `compareFuncs`. */
  method CompareFuncs(a: Option<Node>, b: Option<Node>, env: Env) returns (diff: Diff)
    ensures diff == FuncsDiff(a, b, env)
  {
    var previous := ExtractFuncs(a, env);
    var latest := ExtractFuncs(b, env);
    diff := Differ.Compare(previous, latest, Key(), false, Rule(env));
  }

  /** Every slot contributes at most one change. */
  lemma AtMostOneChangePerSlot(a: Option<Node>, b: Option<Node>, env: Env)
    ensures |FuncsDiff(a, b, env)| <= |Funcs(a, env)| + |Unmatched(Funcs(a, env), Funcs(b, env), Key())|
  {
    Differ.AtMostOnePerSlot(Funcs(a, env), Funcs(b, env), Key(), false, Rule(env));
  }

  /** A latest function that matches no previous one is reported as added, so the diff is at least Minor. */
  lemma FunctionAdded(a: Option<Node>, b: Option<Node>, env: Env, k: nat)
    requires k < |Funcs(b, env)|
    requires forall i :: 0 <= i < |Funcs(a, env)| ==> !Key()(Funcs(a, env)[i], Funcs(b, env)[k])
    ensures Change(Severity.Minor, "function has been added", None, Some(FuncRef(Funcs(b, env)[k]))) in FuncsDiff(a, b, env)
    ensures Severity.AtMost(Severity.Minor, TypeOf(FuncsDiff(a, b, env)))
  {
    var c := Change(Severity.Minor, "function has been added", None, Some(FuncRef(Funcs(b, env)[k])));
    Differ.AdditionContributes(Funcs(a, env), Funcs(b, env), k, Key(), false, Rule(env), c);
    MemberBound(FuncsDiff(a, b, env), c);
  }

  /**
   * A previous function that no latest one matches, and whose receiver
   * types are all exported, is reported as removed: the diff is Major.
   */
  lemma FunctionRemoved(a: Option<Node>, b: Option<Node>, env: Env, i: nat)
    requires i < |Funcs(a, env)| && !InternalReceiver(Funcs(a, env)[i].recv, env)
    requires forall k :: 0 <= k < |Funcs(b, env)| ==> !Key()(Funcs(a, env)[i], Funcs(b, env)[k])
    ensures Change(Severity.Major, "function has been removed", Some(FuncRef(Funcs(a, env)[i])), None) in FuncsDiff(a, b, env)
    ensures TypeOf(FuncsDiff(a, b, env)) == Severity.Major
  {
    var c := Change(Severity.Major, "function has been removed", Some(FuncRef(Funcs(a, env)[i])), None);
    Differ.RemovalContributes(Funcs(a, env), Funcs(b, env), i, Key(), false, Rule(env), c);
    MemberBound(FuncsDiff(a, b, env), c);
  }

  /**
   * The previous function's slot ends up holding the last latest function
   * with its key; when their signatures differ the diff is Major.
   */
  lemma SignatureChanged(a: Option<Node>, b: Option<Node>, env: Env, i: nat, k: nat)
    requires i < |Funcs(a, env)| && k < |Funcs(b, env)|
    requires Key()(Funcs(a, env)[i], Funcs(b, env)[k])
    requires forall k' :: k < k' < |Funcs(b, env)| ==> !Key()(Funcs(a, env)[i], Funcs(b, env)[k'])
    requires !Equality.EqualSignature(Funcs(a, env)[i].typ, Funcs(b, env)[k].typ)
    ensures Change(Severity.Major, "function signature has changed",
                   Some(FuncRef(Funcs(a, env)[i])), Some(FuncRef(Funcs(b, env)[k]))) in FuncsDiff(a, b, env)
    ensures TypeOf(FuncsDiff(a, b, env)) == Severity.Major
  {
    var P, L := Funcs(a, env), Funcs(b, env);
    LastClaimSome(P, L, i, k, Key(), false);
    var c := Change(Severity.Major, "function signature has changed", Some(FuncRef(P[i])), Some(FuncRef(L[k])));
    Differ.PairContributes(P, L, i, Key(), false, Rule(env), c);
    MemberBound(FuncsDiff(a, b, env), c);
  }

  /**
   * A snapshot compared with itself is a Patch: when no two exported
   * functions share a name and receiver list, and their receivers and
   * signatures use only the handled expression forms, the diff is empty.
   */
  lemma SelfDiffIsPatch(n: Option<Node>, env: Env)
    requires forall i, k :: 0 <= i < |Funcs(n, env)| && 0 <= k < |Funcs(n, env)| && i != k ==>
               !Key()(Funcs(n, env)[i], Funcs(n, env)[k])
    requires forall i :: 0 <= i < |Funcs(n, env)| ==>
               Equality.HandledList(Funcs(n, env)[i].recv) && Equality.HandledSignature(Funcs(n, env)[i].typ)
    ensures FuncsDiff(n, n, env) == []
    ensures TypeOf(FuncsDiff(n, n, env)) == Severity.Patch
  {
    var P := Funcs(n, env);
    forall i | 0 <= i < |P|
      ensures Key()(P[i], P[i]) && CompareFuncDecl(Some(P[i]), Some(P[i]), env) == []
    {
      Equality.ListReflexive(P[i].recv);
      Equality.SignatureReflexive(P[i].typ);
    }
    Differ.SelfOutcome(P, Key(), false, Rule(env));
  }

  /**
   * Receiver variable names are not part of the key: `func (a *T) F()`
   * and `func (b *T) F()` match.
   */
  lemma ReceiverNamesIgnored(x: seq<Field>, y: seq<Field>, name: Ident, t: FuncType, t': FuncType)
    requires Equality.HandledList(List(x)) && |x| == |y|
    requires forall i :: 0 <= i < |x| ==> x[i].typ == y[i].typ && x[i].tag == y[i].tag
    ensures Key()(FuncDecl(List(x), name, t), FuncDecl(List(y), name, t'))
  {
    Equality.RenamedListEqual(x, y);
  }
}
