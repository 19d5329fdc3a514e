/**
 * internal/ast/diff.go: a `Change` is a classified difference, a `Diff` an
 * ordered list of changes, and `Type()` the aggregate severity of a diff.
 */
module Diffs {
  import opened Wrappers
  import opened GoSyntax
  import Severity

  /** The declaration a change refers to, for display only. */
  datatype Decl = FuncRef(funcDecl: FuncDecl) | TypeRef(typeSpec: TypeSpec) | ValueRef(valueSpec: ValueSpec)

  datatype Change = Change(typ: Severity.Type, reason: string, previous: Option<Decl>, latest: Option<Decl>)

  /** A nil `Diff` and an empty one behave alike for append, len and range, so both are `[]`. */
  type Diff = seq<Change>

  /** `d.Add(c...)`: the changes `cs` appended, in order, after those of `d`. */
  function Add(d: Diff, cs: seq<Change>): (r: Diff)
    ensures |r| == |d| + |cs|
    ensures forall i :: 0 <= i < |d| ==> r[i] == d[i]
    ensures forall i :: 0 <= i < |cs| ==> r[|d| + i] == cs[i]
  {
    d + cs
  }

  /** `d.Merge(q)`: the changes of `q` appended, in order, after those of `d`. */
  function Merge(d: Diff, q: Diff): (r: Diff)
    ensures |r| == |d| + |q|
    ensures forall i :: 0 <= i < |d| ==> r[i] == d[i]
    ensures forall i :: 0 <= i < |q| ==> r[|d| + i] == q[i]
  {
    Add(d, q)
  }

  /**
   * The value `Type()` computes: the severity of the entries folded with
   * Max, starting from Patch. It is the least severity that is at least
   * Patch and at least every entry's.
   */
  function TypeOf(d: Diff): (t: Severity.Type)
    ensures Severity.AtMost(Severity.Patch, t)
    ensures forall i :: 0 <= i < |d| ==> Severity.AtMost(d[i].typ, t)
    ensures t == Severity.Patch || exists i :: 0 <= i < |d| && d[i].typ == t
    decreases |d|
  {
    if d == [] then Severity.Patch
    else Severity.Max(TypeOf(d[..|d| - 1]), d[|d| - 1].typ)
  }

  /** `d.Type()`: the loop over the entries keeping the largest severity seen. */
  method DiffType(d: Diff) returns (t: Severity.Type)
    ensures t == TypeOf(d)
  {
    t := Severity.Patch;
    var i := 0;
    while i < |d|
      invariant 0 <= i <= |d|
      invariant t == TypeOf(d[..i])
    {
      assert d[..i + 1][..i] == d[..i];
      if Severity.Less(t, d[i].typ) {
        t := d[i].typ;
      }
      i := i + 1;
    }
    assert d[..i] == d;
  }

  /** The empty diff reports Patch, never None. */
  lemma EmptyIsPatch()
    ensures TypeOf([]) == Severity.Patch
  {
  }

  /** Entries typed None never pull the aggregate below Patch. */
  lemma NoneNeverLowers(d: Diff)
    requires forall i :: 0 <= i < |d| ==> d[i].typ == Severity.None
    ensures TypeOf(d) == Severity.Patch
  {
  }

  /** The aggregate of a merge is the larger of the two aggregates. */
  lemma {:induction false} TypeOfMerge(d: Diff, q: Diff)
    ensures TypeOf(Merge(d, q)) == Severity.Max(TypeOf(d), TypeOf(q))
    decreases |q|
  {
    if q == [] {
      assert Merge(d, q) == d;
    } else {
      var q' := q[..|q| - 1];
      assert Merge(d, q)[..|d + q| - 1] == Merge(d, q');
      TypeOfMerge(d, q');
    }
  }

  /** Merge order never changes the aggregate severity. */
  lemma MergeOrderIrrelevant(d: Diff, q: Diff)
    ensures TypeOf(Merge(d, q)) == TypeOf(Merge(q, d))
  {
    TypeOfMerge(d, q);
    TypeOfMerge(q, d);
  }

  /** Diffs under Merge form a monoid with the empty diff as identity. */
  lemma MergeMonoid(d: Diff, q: Diff, r: Diff)
    ensures Merge(Merge(d, q), r) == Merge(d, Merge(q, r))
    ensures Merge([], d) == d && Merge(d, []) == d
  {
  }

  /** Adding a Major change makes the whole diff Major, whatever else it holds. */
  lemma AddMajor(d: Diff, c: Change)
    requires c.typ == Severity.Major
    ensures TypeOf(Add(d, [c])) == Severity.Major
  {
    assert Add(d, [c])[|d|] == c;
  }

  /** A diff is at least as severe as each change it holds; one Major change makes it Major. */
  lemma MemberBound(d: Diff, c: Change)
    requires c in d
    ensures Severity.AtMost(c.typ, TypeOf(d))
    ensures c.typ == Severity.Major ==> TypeOf(d) == Severity.Major
  {
    var k :| 0 <= k < |d| && d[k] == c;
    Severity.RankInjective(TypeOf(d), Severity.Major);
  }

  /** The ordered concatenation of `f` over `s`: the `diff = diff.Merge(...)` loops. */
  function ConcatMap<T>(s: seq<T>, f: T --> Diff): (r: Diff)
    requires forall i :: 0 <= i < |s| ==> f.requires(s[i])
    decreases |s|
  {
    if s == [] then [] else ConcatMap(s[..|s| - 1], f) + f(s[|s| - 1])
  }

  /** Each element contributing at most one change bounds the length of the concatenation. */
  lemma {:induction false} ConcatMapAtMostOne<T>(s: seq<T>, f: T --> Diff)
    requires forall i :: 0 <= i < |s| ==> f.requires(s[i]) && |f(s[i])| <= 1
    ensures |ConcatMap(s, f)| <= |s|
    decreases |s|
  {
    if s != [] {
      ConcatMapAtMostOne(s[..|s| - 1], f);
    }
  }

  /** Every change any element contributes is in the concatenation. */
  lemma {:induction false} ConcatMapContains<T>(s: seq<T>, f: T --> Diff, k: nat, c: Change)
    requires forall i :: 0 <= i < |s| ==> f.requires(s[i])
    requires k < |s| && c in f(s[k])
    ensures c in ConcatMap(s, f)
    decreases |s|
  {
    if k < |s| - 1 {
      ConcatMapContains(s[..|s| - 1], f, k, c);
    }
  }

  /** The concatenation of empty contributions is the empty diff. */
  lemma {:induction false} ConcatMapEmpty<T>(s: seq<T>, f: T --> Diff)
    requires forall i :: 0 <= i < |s| ==> f.requires(s[i]) && f(s[i]) == []
    ensures ConcatMap(s, f) == []
    decreases |s|
  {
    if s != [] {
      ConcatMapEmpty(s[..|s| - 1], f);
    }
  }

  /** Every change of the concatenation comes from some element's contribution. */
  lemma {:induction false} ConcatMapSource<T>(s: seq<T>, f: T --> Diff, c: Change)
    requires forall i :: 0 <= i < |s| ==> f.requires(s[i])
    requires c in ConcatMap(s, f)
    ensures exists i :: 0 <= i < |s| && c in f(s[i])
    decreases |s|
  {
    var s' := s[..|s| - 1];
    if c !in f(s[|s| - 1]) {
      ConcatMapSource(s', f, c);
      var i :| 0 <= i < |s'| && c in f(s'[i]);
      assert s'[i] == s[i];
    }
  }
}
