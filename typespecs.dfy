/**
 * internal/ast/type-spec.go: the differ for type declarations. Exported
 * type specs are extracted (the walk does not enter an unexported one),
 * matched by `equalIdent` of their names with the first match winning, and
 * compared with `equalTypeSpec`, whose body is not part of this model.
 */
module TypeSpecs {
  import opened Wrappers
  import opened GoSyntax
  import opened Diffs
  import opened Matching
  import Severity
  import Equality
  import Inspect
  import Differ

  /** The closure's answer: it returns false on an unexported type spec, whose subtree is skipped. */
  function Descend(env: Env): (descend: NodeKind -> bool)
    ensures forall k: NodeKind :: !k.TypeSpecNode? ==> descend(k)
    ensures forall t :: descend(TypeSpecNode(t)) <==> env.exported(t.name.name)
  {
    (k: NodeKind) => !(k.TypeSpecNode? && !env.exported(k.typeSpec.name.name))
  }

  /** The extractor's closure: an exported type spec is appended. */
  function Pick(env: Env): NodeKind -> Option<TypeSpec> {
    (k: NodeKind) => if k.TypeSpecNode? && env.exported(k.typeSpec.name.name) then Some(k.typeSpec) else None
  }

  /** What `extractTypeSpec` returns. */
  function TypeSpecs(node: Option<Node>, env: Env): seq<TypeSpec> {
    Inspect.Extracted(node, Descend(env), Pick(env))
  }

  /** `extractTypeSpec`. */
  method ExtractTypeSpec(node: Option<Node>, env: Env) returns (result: seq<TypeSpec>)
    ensures result == TypeSpecs(node, env)
  {
    result := Inspect.Collect(node, Descend(env), Pick(env));
  }

  /** Every extracted type spec has an exported name and is a node the walk reaches. */
  lemma TypeSpecsExported(n: Node, env: Env, t: TypeSpec)
    ensures t in TypeSpecs(Some(n), env) <==> TypeSpecNode(t) in Inspect.Visit(n, Descend(env)) && env.exported(t.name.name)
  {
    var ks := Inspect.Visit(n, Descend(env));
    Inspect.PickedMember(ks, Pick(env), t);
    if TypeSpecNode(t) in ks && env.exported(t.name.name) {
      var i :| 0 <= i < |ks| && ks[i] == TypeSpecNode(t);
      assert Pick(env)(ks[i]) == Some(t);
    }
  }

  /** Nothing under an unexported type spec is extracted, whatever its subtree holds. */
  lemma UnexportedPruned(t: TypeSpec, cs: seq<Node>, env: Env)
    requires !env.exported(t.name.name)
    ensures TypeSpecs(Some(Node(TypeSpecNode(t), cs)), env) == []
  {
    Inspect.Pruned(TypeSpecNode(t), cs, Descend(env), Pick(env));
    assert [TypeSpecNode(t)][..0] == [];
  }

  function Ref(d: Option<TypeSpec>): Option<Decl> {
    if d.None? then None else Some(TypeRef(d.value))
  }

  /** `diffTypeSpec`: the rule for one slot. */
  function DiffTypeSpec(a: Option<TypeSpec>, b: Option<TypeSpec>, env: Env): (r: Diff)
    requires a.Some? || b.Some?
    ensures |r| <= 1
    ensures forall c :: c in r ==> c.previous == Ref(a) && c.latest == Ref(b)
    ensures a.None? ==> r == [Change(Severity.Minor, "struct has been added", None, Ref(b))]
    ensures b.None? ==> r == [Change(Severity.Major, "struct has been removed", Ref(a), None)]
    ensures a.Some? && b.Some? ==> (r == [] <==> env.equalTypeSpec(a.value, b.value))
    ensures a.Some? && b.Some? && r != [] ==> r[0].typ == Severity.Major && r[0].reason == "struct has has changed signature"
  {
    if a.None? && b.Some? then
      Add([], [Change(Severity.Minor, "struct has been added", None, Some(TypeRef(b.value)))])
    else if a.Some? && b.None? then
      Add([], [Change(Severity.Major, "struct has been removed", Some(TypeRef(a.value)), None)])
    else if !env.equalTypeSpec(a.value, b.value) then
      Add([], [Change(Severity.Major, "struct has has changed signature", Some(TypeRef(a.value)), Some(TypeRef(b.value)))])
    else []
  }

  /** The matcher's key: `equalIdent` of the names. */
  function Key(): (key: (TypeSpec, TypeSpec) -> bool)
    ensures forall p, l :: key(p, l) <==> p.name == l.name
  {
    (p: TypeSpec, l: TypeSpec) => Equality.EqualIdent(p.name, l.name)
  }

  function Rule(env: Env): Slot<TypeSpec> --> Diff {
    (s: Slot<TypeSpec>) requires Occupied(s) => DiffTypeSpec(s.previous, s.latest, env)
  }

  /** The diff `compareTypeSpec` returns; the matcher stops at the first match (`break`). */
  function TypeSpecsDiff(a: Option<Node>, b: Option<Node>, env: Env): Diff {
    Differ.Outcome(TypeSpecs(a, env), TypeSpecs(b, env), Key(), true, Rule(env))
  }

  /** `compareTypeSpec`. */
  method CompareTypeSpec(a: Option<Node>, b: Option<Node>, env: Env) returns (diff: Diff)
    ensures diff == TypeSpecsDiff(a, b, env)
  {
    var previous := ExtractTypeSpec(a, env);
    var latest := ExtractTypeSpec(b, env);
    diff := Differ.Compare(previous, latest, Key(), true, Rule(env));
  }

  /** Every slot contributes at most one change. */
  lemma AtMostOneChangePerSlot(a: Option<Node>, b: Option<Node>, env: Env)
    ensures |TypeSpecsDiff(a, b, env)| <= |TypeSpecs(a, env)| + |Unmatched(TypeSpecs(a, env), TypeSpecs(b, env), Key())|
  {
    Differ.AtMostOnePerSlot(TypeSpecs(a, env), TypeSpecs(b, env), Key(), true, Rule(env));
  }

  /** A latest type whose name no previous type has is reported as added. */
  lemma TypeAdded(a: Option<Node>, b: Option<Node>, env: Env, k: nat)
    requires k < |TypeSpecs(b, env)|
    requires forall i :: 0 <= i < |TypeSpecs(a, env)| ==> !Key()(TypeSpecs(a, env)[i], TypeSpecs(b, env)[k])
    ensures Change(Severity.Minor, "struct has been added", None, Some(TypeRef(TypeSpecs(b, env)[k]))) in TypeSpecsDiff(a, b, env)
    ensures Severity.AtMost(Severity.Minor, TypeOf(TypeSpecsDiff(a, b, env)))
  {
    var c := Change(Severity.Minor, "struct has been added", None, Some(TypeRef(TypeSpecs(b, env)[k])));
    Differ.AdditionContributes(TypeSpecs(a, env), TypeSpecs(b, env), k, Key(), true, Rule(env), c);
    MemberBound(TypeSpecsDiff(a, b, env), c);
  }

  /** A previous type whose name no latest type has is reported as removed: the diff is Major. */
  lemma TypeRemoved(a: Option<Node>, b: Option<Node>, env: Env, i: nat)
    requires i < |TypeSpecs(a, env)|
    requires forall k :: 0 <= k < |TypeSpecs(b, env)| ==> !Key()(TypeSpecs(a, env)[i], TypeSpecs(b, env)[k])
    ensures Change(Severity.Major, "struct has been removed", Some(TypeRef(TypeSpecs(a, env)[i])), None) in TypeSpecsDiff(a, b, env)
    ensures TypeOf(TypeSpecsDiff(a, b, env)) == Severity.Major
  {
    var c := Change(Severity.Major, "struct has been removed", Some(TypeRef(TypeSpecs(a, env)[i])), None);
    Differ.RemovalContributes(TypeSpecs(a, env), TypeSpecs(b, env), i, Key(), true, Rule(env), c);
    MemberBound(TypeSpecsDiff(a, b, env), c);
  }

  /**
   * The last latest type that claims a previous slot (its first match) is
   * compared with it; when `equalTypeSpec` rejects the pair the diff is Major.
   */
  lemma TypeChanged(a: Option<Node>, b: Option<Node>, env: Env, i: nat, k: nat)
    requires i < |TypeSpecs(a, env)| && k < |TypeSpecs(b, env)|
    requires Claims(TypeSpecs(a, env), i, TypeSpecs(b, env)[k], Key(), true)
    requires forall k' :: k < k' < |TypeSpecs(b, env)| ==> !Claims(TypeSpecs(a, env), i, TypeSpecs(b, env)[k'], Key(), true)
    requires !env.equalTypeSpec(TypeSpecs(a, env)[i], TypeSpecs(b, env)[k])
    ensures Change(Severity.Major, "struct has has changed signature",
                   Some(TypeRef(TypeSpecs(a, env)[i])), Some(TypeRef(TypeSpecs(b, env)[k]))) in TypeSpecsDiff(a, b, env)
    ensures TypeOf(TypeSpecsDiff(a, b, env)) == Severity.Major
  {
    var P, L := TypeSpecs(a, env), TypeSpecs(b, env);
    LastClaimSome(P, L, i, k, Key(), true);
    var c := Change(Severity.Major, "struct has has changed signature", Some(TypeRef(P[i])), Some(TypeRef(L[k])));
    Differ.PairContributes(P, L, i, Key(), true, Rule(env), c);
    MemberBound(TypeSpecsDiff(a, b, env), c);
  }

  /**
   * A snapshot compared with itself is a Patch, when no two exported types
   * share a name and `equalTypeSpec` holds of each type and itself.
   */
  lemma SelfDiffIsPatch(n: Option<Node>, env: Env)
    requires forall i, k :: 0 <= i < |TypeSpecs(n, env)| && 0 <= k < |TypeSpecs(n, env)| && i != k ==>
               TypeSpecs(n, env)[i].name != TypeSpecs(n, env)[k].name
    requires forall i :: 0 <= i < |TypeSpecs(n, env)| ==> env.equalTypeSpec(TypeSpecs(n, env)[i], TypeSpecs(n, env)[i])
    ensures TypeSpecsDiff(n, n, env) == []
    ensures TypeOf(TypeSpecsDiff(n, n, env)) == Severity.Patch
  {
    var P := TypeSpecs(n, env);
    assert forall i :: 0 <= i < |P| ==> DiffTypeSpec(Some(P[i]), Some(P[i]), env) == [];
    Differ.SelfOutcome(P, Key(), true, Rule(env));
  }
}
