/**
 * internal/ast/value-spec.go: the differ for const and var specs. A spec
 * is extracted when every name it declares is exported (the walk does not
 * enter one that declares an unexported name), matched by `equalNames`
 * with the first match winning, and compared with `equalValueSpec`. The
 * bodies of `equalNames` and `equalValueSpec` are not part of this model.
 */
module ValueSpecs {
  import opened Wrappers
  import opened GoSyntax
  import opened Diffs
  import opened Matching
  import Severity
  import Inspect
  import Differ

  /** Every name the spec declares is exported. */
  predicate AllExported(v: ValueSpec, env: Env) {
    forall i :: 0 <= i < |v.names| ==> env.exported(v.names[i].name)
  }

  /** The closure's answer: it returns false on a spec with an unexported name, whose subtree is skipped. */
  function Descend(env: Env): (descend: NodeKind -> bool)
    ensures forall k: NodeKind :: !k.ValueSpecNode? ==> descend(k)
    ensures forall v :: descend(ValueSpecNode(v)) <==> AllExported(v, env)
  {
    (k: NodeKind) => !(k.ValueSpecNode? && !AllExported(k.valueSpec, env))
  }

  /** The extractor's closure: a spec whose names are all exported is appended. */
  function Pick(env: Env): NodeKind -> Option<ValueSpec> {
    (k: NodeKind) => if k.ValueSpecNode? && AllExported(k.valueSpec, env) then Some(k.valueSpec) else None
  }

  /** What `extractValueSpec` returns. */
  function ValueSpecs(node: Option<Node>, env: Env): seq<ValueSpec> {
    Inspect.Extracted(node, Descend(env), Pick(env))
  }

  /** `extractValueSpec`; `extractConsts` in const.go is the same code. */
  method ExtractValueSpec(node: Option<Node>, env: Env) returns (result: seq<ValueSpec>)
    ensures result == ValueSpecs(node, env)
  {
    result := Inspect.Collect(node, Descend(env), Pick(env));
  }

  /** A spec is extracted exactly when the walk reaches it and all of its names are exported. */
  lemma ValueSpecsExported(n: Node, env: Env, v: ValueSpec)
    ensures v in ValueSpecs(Some(n), env) <==> ValueSpecNode(v) in Inspect.Visit(n, Descend(env)) && AllExported(v, env)
  {
    var ks := Inspect.Visit(n, Descend(env));
    Inspect.PickedMember(ks, Pick(env), v);
    if ValueSpecNode(v) in ks && AllExported(v, env) {
      var i :| 0 <= i < |ks| && ks[i] == ValueSpecNode(v);
      assert Pick(env)(ks[i]) == Some(v);
    }
  }

  /** One unexported name keeps the whole spec, and its subtree, out. */
  lemma UnexportedPruned(v: ValueSpec, cs: seq<Node>, env: Env, j: nat)
    requires j < |v.names| && !env.exported(v.names[j].name)
    ensures ValueSpecs(Some(Node(ValueSpecNode(v), cs)), env) == []
  {
    Inspect.Pruned(ValueSpecNode(v), cs, Descend(env), Pick(env));
    assert [ValueSpecNode(v)][..0] == [];
  }

  function Ref(d: Option<ValueSpec>): Option<Decl> {
    if d.None? then None else Some(ValueRef(d.value))
  }

  /** `diffValueSpec`: the rule for one slot. */
  function DiffValueSpec(a: Option<ValueSpec>, b: Option<ValueSpec>, env: Env): (r: Diff)
    requires a.Some? || b.Some?
    ensures |r| <= 1
    ensures forall c :: c in r ==> c.previous == Ref(a) && c.latest == Ref(b)
    ensures a.None? ==> r == [Change(Severity.Minor, "value spec has been added", None, Ref(b))]
    ensures b.None? ==> r == [Change(Severity.Major, "value spec has been removed", Ref(a), None)]
    ensures a.Some? && b.Some? ==> (r == [] <==> env.equalValueSpec(a.value, b.value))
    ensures a.Some? && b.Some? && r != [] ==> r[0].typ == Severity.Major && r[0].reason == "value spec has changed signature"
  {
    if a.None? && b.Some? then
      Add([], [Change(Severity.Minor, "value spec has been added", None, Some(ValueRef(b.value)))])
    else if a.Some? && b.None? then
      Add([], [Change(Severity.Major, "value spec has been removed", Some(ValueRef(a.value)), None)])
    else if !env.equalValueSpec(a.value, b.value) then
      Add([], [Change(Severity.Major, "value spec has changed signature", Some(ValueRef(a.value)), Some(ValueRef(b.value)))])
    else []
  }

  /** The matcher's key: `equalNames` of the declared names. */
  function Key(env: Env): (key: (ValueSpec, ValueSpec) -> bool)
    ensures forall p, l :: key(p, l) <==> env.equalNames(p.names, l.names)
    ensures forall p: ValueSpec, l: ValueSpec, l': ValueSpec {:trigger key(p, l), key(p, l')} :: l.names == l'.names ==> (key(p, l) <==> key(p, l'))
  {
    (p: ValueSpec, l: ValueSpec) => env.equalNames(p.names, l.names)
  }

  function Rule(env: Env): Slot<ValueSpec> --> Diff {
    (s: Slot<ValueSpec>) requires Occupied(s) => DiffValueSpec(s.previous, s.latest, env)
  }

  /** The diff `compareValueSpec` returns; the matcher stops at the first match (`break`). */
  function ValueSpecsDiff(a: Option<Node>, b: Option<Node>, env: Env): Diff {
    Differ.Outcome(ValueSpecs(a, env), ValueSpecs(b, env), Key(env), true, Rule(env))
  }

  /** `compareValueSpec` of value-spec.go. */
  method CompareValueSpec(a: Option<Node>, b: Option<Node>, env: Env) returns (diff: Diff)
    ensures diff == ValueSpecsDiff(a, b, env)
  {
    var previous := ExtractValueSpec(a, env);
    var latest := ExtractValueSpec(b, env);
    diff := Differ.Compare(previous, latest, Key(env), true, Rule(env));
  }

  /** Every slot contributes at most one change. */
  lemma AtMostOneChangePerSlot(a: Option<Node>, b: Option<Node>, env: Env)
    ensures |ValueSpecsDiff(a, b, env)| <= |ValueSpecs(a, env)| + |Unmatched(ValueSpecs(a, env), ValueSpecs(b, env), Key(env))|
  {
    Differ.AtMostOnePerSlot(ValueSpecs(a, env), ValueSpecs(b, env), Key(env), true, Rule(env));
  }

  /** A latest spec whose names match no previous spec's is reported as added. */
  lemma ValueAdded(a: Option<Node>, b: Option<Node>, env: Env, k: nat)
    requires k < |ValueSpecs(b, env)|
    requires forall i :: 0 <= i < |ValueSpecs(a, env)| ==> !env.equalNames(ValueSpecs(a, env)[i].names, ValueSpecs(b, env)[k].names)
    ensures Change(Severity.Minor, "value spec has been added", None, Some(ValueRef(ValueSpecs(b, env)[k]))) in ValueSpecsDiff(a, b, env)
    ensures Severity.AtMost(Severity.Minor, TypeOf(ValueSpecsDiff(a, b, env)))
  {
    var c := Change(Severity.Minor, "value spec has been added", None, Some(ValueRef(ValueSpecs(b, env)[k])));
    Differ.AdditionContributes(ValueSpecs(a, env), ValueSpecs(b, env), k, Key(env), true, Rule(env), c);
    MemberBound(ValueSpecsDiff(a, b, env), c);
  }

  /** A previous spec whose names match no latest spec's is reported as removed: the diff is Major. */
  lemma ValueRemoved(a: Option<Node>, b: Option<Node>, env: Env, i: nat)
    requires i < |ValueSpecs(a, env)|
    requires forall k :: 0 <= k < |ValueSpecs(b, env)| ==> !env.equalNames(ValueSpecs(a, env)[i].names, ValueSpecs(b, env)[k].names)
    ensures Change(Severity.Major, "value spec has been removed", Some(ValueRef(ValueSpecs(a, env)[i])), None) in ValueSpecsDiff(a, b, env)
    ensures TypeOf(ValueSpecsDiff(a, b, env)) == Severity.Major
  {
    var c := Change(Severity.Major, "value spec has been removed", Some(ValueRef(ValueSpecs(a, env)[i])), None);
    Differ.RemovalContributes(ValueSpecs(a, env), ValueSpecs(b, env), i, Key(env), true, Rule(env), c);
    MemberBound(ValueSpecsDiff(a, b, env), c);
  }

  /** The pair in a previous slot fails `equalValueSpec`: the diff is Major. */
  lemma ValueChanged(a: Option<Node>, b: Option<Node>, env: Env, i: nat, k: nat)
    requires i < |ValueSpecs(a, env)| && k < |ValueSpecs(b, env)|
    requires Claims(ValueSpecs(a, env), i, ValueSpecs(b, env)[k], Key(env), true)
    requires forall k' :: k < k' < |ValueSpecs(b, env)| ==> !Claims(ValueSpecs(a, env), i, ValueSpecs(b, env)[k'], Key(env), true)
    requires !env.equalValueSpec(ValueSpecs(a, env)[i], ValueSpecs(b, env)[k])
    ensures Change(Severity.Major, "value spec has changed signature",
                   Some(ValueRef(ValueSpecs(a, env)[i])), Some(ValueRef(ValueSpecs(b, env)[k]))) in ValueSpecsDiff(a, b, env)
    ensures TypeOf(ValueSpecsDiff(a, b, env)) == Severity.Major
  {
    var P, L := ValueSpecs(a, env), ValueSpecs(b, env);
    LastClaimSome(P, L, i, k, Key(env), true);
    var c := Change(Severity.Major, "value spec has changed signature", Some(ValueRef(P[i])), Some(ValueRef(L[k])));
    Differ.PairContributes(P, L, i, Key(env), true, Rule(env), c);
    MemberBound(ValueSpecsDiff(a, b, env), c);
  }

  /**
   * A snapshot compared with itself is a Patch, when `equalNames` holds
   * between two extracted specs exactly when they are the same one, and
   * `equalValueSpec` holds of each spec and itself.
   */
  lemma SelfDiffIsPatch(n: Option<Node>, env: Env)
    requires forall i, k :: 0 <= i < |ValueSpecs(n, env)| && 0 <= k < |ValueSpecs(n, env)| ==>
               (env.equalNames(ValueSpecs(n, env)[i].names, ValueSpecs(n, env)[k].names) <==> i == k)
    requires forall i :: 0 <= i < |ValueSpecs(n, env)| ==> env.equalValueSpec(ValueSpecs(n, env)[i], ValueSpecs(n, env)[i])
    ensures ValueSpecsDiff(n, n, env) == []
    ensures TypeOf(ValueSpecsDiff(n, n, env)) == Severity.Patch
  {
    var P := ValueSpecs(n, env);
    assert forall i :: 0 <= i < |P| ==> DiffValueSpec(Some(P[i]), Some(P[i]), env) == [];
    Differ.SelfOutcome(P, Key(env), true, Rule(env));
  }
}
