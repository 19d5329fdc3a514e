/**
 * internal/ast/const.go: the alternative differ for const specs. It
 * extracts what `extractValueSpec` extracts, keys the matcher on
 * whole-spec `equalValueSpec` without `break`, and reports only additions
 * and removals: a changed constant is an unmatched pair, one removal and
 * one addition.
 */
module Consts {
  import opened Wrappers
  import opened GoSyntax
  import opened Diffs
  import opened Matching
  import Severity
  import ValueSpecs
  import Differ

  /** `compareValueSpec` of const.go: the rule for one slot, total even for two nils. */
  function CompareValueSpec(a: Option<ValueSpec>, b: Option<ValueSpec>): (r: Diff)
    ensures |r| <= 1
    ensures forall c :: c in r ==> c.previous == ValueSpecs.Ref(a) && c.latest == ValueSpecs.Ref(b)
    ensures r != [] <==> a.None? != b.None?
    ensures a.None? && b.Some? ==> r == [Change(Severity.Minor, "a constant has been added", None, ValueSpecs.Ref(b))]
    ensures a.Some? && b.None? ==> r == [Change(Severity.Major, "a constant has been removed", ValueSpecs.Ref(a), None)]
  {
    if a.None? && b.Some? then
      Add([], [Change(Severity.Minor, "a constant has been added", None, Some(ValueRef(b.value)))])
    else if a.Some? && b.None? then
      Add([], [Change(Severity.Major, "a constant has been removed", Some(ValueRef(a.value)), None)])
    else []
  }

  /** The matcher's key: the whole specs are equal under `equalValueSpec`. */
  function Key(env: Env): (key: (ValueSpec, ValueSpec) -> bool)
    ensures forall p, l :: key(p, l) <==> env.equalValueSpec(p, l)
  {
    (p: ValueSpec, l: ValueSpec) => env.equalValueSpec(p, l)
  }

  function Rule(): Slot<ValueSpec> --> Diff {
    (s: Slot<ValueSpec>) => CompareValueSpec(s.previous, s.latest)
  }

  /** The diff `compareConsts` returns; the matcher has no `break`. */
  function ConstsDiff(a: Option<Node>, b: Option<Node>, env: Env): Diff {
    Differ.Outcome(ValueSpecs.ValueSpecs(a, env), ValueSpecs.ValueSpecs(b, env), Key(env), false, Rule())
  }

  /** `compareConsts`; `extractConsts` is the same code as `extractValueSpec`. */
  method CompareConsts(a: Option<Node>, b: Option<Node>, env: Env) returns (diff: Diff)
    ensures diff == ConstsDiff(a, b, env)
  {
    var previous := ValueSpecs.ExtractValueSpec(a, env);
    var latest := ValueSpecs.ExtractValueSpec(b, env);
    diff := Differ.Compare(previous, latest, Key(env), false, Rule());
  }

  /** Every change is an addition or a removal; nothing is ever reported as changed. */
  lemma OnlyAdditionsAndRemovals(a: Option<Node>, b: Option<Node>, env: Env, c: Change)
    requires c in ConstsDiff(a, b, env)
    ensures (c.typ == Severity.Minor && c.reason == "a constant has been added")
         || (c.typ == Severity.Major && c.reason == "a constant has been removed")
  {
    var t := Table(ValueSpecs.ValueSpecs(a, env), ValueSpecs.ValueSpecs(b, env), Key(env), false);
    TableOccupied(ValueSpecs.ValueSpecs(a, env), ValueSpecs.ValueSpecs(b, env), Key(env), false);
    ConcatMapSource(t, Rule(), c);
  }

  /** A previous constant with no equal latest one is reported as removed: the diff is Major. */
  lemma UnmatchedConstIsMajor(a: Option<Node>, b: Option<Node>, env: Env, i: nat)
    requires i < |ValueSpecs.ValueSpecs(a, env)|
    requires forall k :: 0 <= k < |ValueSpecs.ValueSpecs(b, env)| ==>
               !env.equalValueSpec(ValueSpecs.ValueSpecs(a, env)[i], ValueSpecs.ValueSpecs(b, env)[k])
    ensures Change(Severity.Major, "a constant has been removed", Some(ValueRef(ValueSpecs.ValueSpecs(a, env)[i])), None)
            in ConstsDiff(a, b, env)
    ensures TypeOf(ConstsDiff(a, b, env)) == Severity.Major
  {
    var P := ValueSpecs.ValueSpecs(a, env);
    var c := Change(Severity.Major, "a constant has been removed", Some(ValueRef(P[i])), None);
    Differ.RemovalContributes(P, ValueSpecs.ValueSpecs(b, env), i, Key(env), false, Rule(), c);
    MemberBound(ConstsDiff(a, b, env), c);
  }

  /** A latest constant with no equal previous one is reported as added. */
  lemma UnmatchedConstIsAdded(a: Option<Node>, b: Option<Node>, env: Env, k: nat)
    requires k < |ValueSpecs.ValueSpecs(b, env)|
    requires forall i :: 0 <= i < |ValueSpecs.ValueSpecs(a, env)| ==>
               !env.equalValueSpec(ValueSpecs.ValueSpecs(a, env)[i], ValueSpecs.ValueSpecs(b, env)[k])
    ensures Change(Severity.Minor, "a constant has been added", None, Some(ValueRef(ValueSpecs.ValueSpecs(b, env)[k])))
            in ConstsDiff(a, b, env)
  {
    var L := ValueSpecs.ValueSpecs(b, env);
    var c := Change(Severity.Minor, "a constant has been added", None, Some(ValueRef(L[k])));
    Differ.AdditionContributes(ValueSpecs.ValueSpecs(a, env), L, k, Key(env), false, Rule(), c);
    MemberBound(ConstsDiff(a, b, env), c);
  }

  /** A single constant that changed is reported as one removal followed by one addition. */
  lemma ChangeIsRemovalPlusAddition(p: ValueSpec, l: ValueSpec, env: Env)
    requires !env.equalValueSpec(p, l)
    ensures Differ.Outcome([p], [l], Key(env), false, Rule())
         == [Change(Severity.Major, "a constant has been removed", Some(ValueRef(p)), None),
             Change(Severity.Minor, "a constant has been added", None, Some(ValueRef(l)))]
  {
    var t0 := Initial([p]);
    assert t0 == [Slot(Some(p), None)];
    assert [l][..0] == [];
    assert Scan(t0, l, 1, Key(env), false) == (t0, false);
    assert Scan(t0, l, 0, Key(env), false) == (t0, false);
    assert Table([p], [], Key(env), false) == t0;
    var t := Table([p], [l], Key(env), false);
    assert t == Place(t0, l, Key(env), false);
    assert t == [Slot(Some(p), None), Slot(None, Some(l))];
    assert t[..1] == [t[0]] && [t[0]][..0] == [];
    assert ConcatMap(t[..1], Rule()) == Rule()(t[0]);
    assert ConcatMap(t, Rule()) == Rule()(t[0]) + Rule()(t[1]);
  }

  /**
   * Without `break`, one latest constant equal to two previous ones fills
   * both slots: nothing is reported, where the value-spec differ's first
   * match would report the second previous spec as removed.
   */
  lemma NoBreakFillsEverySlot(p1: ValueSpec, p2: ValueSpec, l: ValueSpec, env: Env)
    requires env.equalValueSpec(p1, l) && env.equalValueSpec(p2, l)
    ensures Differ.Outcome([p1, p2], [l], Key(env), false, Rule()) == []
  {
    BreakFillsFirstOnly(p1, p2, l, Key(env));
    var t := Table([p1, p2], [l], Key(env), false);
    TableOccupied([p1, p2], [l], Key(env), false);
    ConcatMapEmpty(t, Rule());
  }
}
