/**
 * internal/ast/ast.go, the middle generation: a `Diff` is a Go map keyed
 * by `*Change`, updated in place by `Set` and `Merge`. Only the key set
 * matters, so a map is an object holding a set of `Entry` objects, one per
 * pointer. Changes carry no declaration references here (their `Snippet`
 * positions are not represented), so they are `Diffs.Change` values whose
 * references are both `None`.
 */
module LegacyAst {
  import opened Wrappers
  import opened GoSyntax
  import Diffs
  import Severity
  import Funcs
  import LegacyEquality

  /** A change of this generation. */
  function Note(typ: Severity.Type, reason: string): Diffs.Change {
    Diffs.Change(typ, reason, None, None)
  }

  /** The `*Change` pointer a `Set` stores: a fresh object per call. */
  class Entry {
    const change: Diffs.Change

    constructor (c: Diffs.Change)
      ensures change == c
    {
      change := c;
    }
  }

  /** `t` is what `Type()` promises: at least Patch, at least every entry, and Patch or some entry's severity. */
  ghost predicate IsTypeOf(entries: set<Entry>, t: Severity.Type) {
    && Severity.AtMost(Severity.Patch, t)
    && (forall e :: e in entries ==> Severity.AtMost(e.change.typ, t))
    && (t == Severity.Patch || exists e :: e in entries && e.change.typ == t)
  }

  /** A non-nil `Diff` map. */
  class Diff {
    var entries: set<Entry>

    /** `Diff{}`. */
    constructor ()
      ensures entries == {}
    {
      entries := {};
    }

    /** `d.Type()`: the loop over the map keeping the largest severity seen. */
    method Type() returns (t: Severity.Type)
      ensures IsTypeOf(entries, t)
    {
      t := Severity.Patch;
      var rest := entries;
      while rest != {}
        invariant rest <= entries
        invariant Severity.AtMost(Severity.Patch, t)
        invariant forall e :: e in entries - rest ==> Severity.AtMost(e.change.typ, t)
        invariant t == Severity.Patch || exists e :: e in entries - rest && e.change.typ == t
        decreases |rest|
      {
        var e :| e in rest;
        if Severity.Less(t, e.change.typ) {
          t := e.change.typ;
        }
        rest := rest - {e};
      }
    }

    /** The `for k, v := range q { d[k] = v }` loop of `Merge`: each entry of `es` is stored in turn. */
    method Absorb(es: set<Entry>)
      modifies this
      ensures entries == old(entries) + es
    {
      var rest := es;
      while rest != {}
        invariant rest <= es
        invariant entries == old(entries) + (es - rest)
        decreases rest
      {
        var k :| k in rest;
        entries := entries + {k};
        rest := rest - {k};
      }
    }
  }

  /** The entries of a possibly nil map. */
  function EntriesOf(d: Diff?): set<Entry>
    reads d
  {
    if d == null then {} else d.entries
  }

  /** The entries `es` stand for the changes `cs`, one distinct entry per change, in order. */
  ghost predicate Records(es: seq<Entry>, cs: seq<Diffs.Change>) {
    && |es| == |cs|
    && (forall k :: 0 <= k < |es| ==> es[k].change == cs[k])
    && (forall k, k' :: 0 <= k < k' < |es| ==> es[k] != es[k'])
  }

  /** The entries of `es` as a set. */
  ghost function Elems(es: seq<Entry>): set<Entry>
    decreases |es|
  {
    if es == [] then {} else Elems(es[..|es| - 1]) + {es[|es| - 1]}
  }

  lemma {:induction false} ElemsMember(es: seq<Entry>, e: Entry)
    ensures e in Elems(es) <==> e in es
    decreases |es|
  {
    if es != [] {
      ElemsMember(es[..|es| - 1], e);
      assert es == es[..|es| - 1] + [es[|es| - 1]];
    }
  }

  /**
   * `d.Set(c)`: a nil `d` is replaced by a new map; `c` is stored under a
   * fresh pointer, so the map grows by one entry even when an equal change
   * is already there.
   */
  method Set(d: Diff?, c: Diffs.Change) returns (r: Diff, e: Entry)
    modifies d
    ensures d != null ==> r == d
    ensures d == null ==> fresh(r)
    ensures fresh(e) && e.change == c
    ensures r.entries == old(EntriesOf(d)) + {e}
    ensures |r.entries| == |old(EntriesOf(d))| + 1
  {
    if d == null {
      r := new Diff();
    } else {
      r := d;
    }
    e := new Entry(c);
    r.entries := r.entries + {e};
  }

  /**
   * `d.Merge(q)`: every entry of `q` is inserted into `d` in place (a nil
   * `d` is replaced by a new map) and `d` is returned. Merging a map into
   * itself changes nothing.
   */
  method Merge(d: Diff?, q: Diff?) returns (r: Diff)
    modifies d
    ensures d != null ==> r == d
    ensures d == null ==> fresh(r)
    ensures r.entries == old(EntriesOf(d)) + old(EntriesOf(q))
  {
    if d == null {
      r := new Diff();
    } else {
      r := d;
    }
    if q == null {
      return;
    }
    r.Absorb(q.entries);
  }

  /** The changes `compareFuncDecl` stores: one Major change for the same name with another signature. */
  function DeclChanges(env: Env, a: FuncDecl, b: FuncDecl): (cs: seq<Diffs.Change>)
    ensures |cs| <= 1
    ensures cs != [] <==> a.name.name == b.name.name && !LegacyEquality.EqualFuncType(env, Some(a.typ), Some(b.typ))
    ensures forall k :: 0 <= k < |cs| ==> cs[k] == Note(Severity.Major, "function signature has changed")
  {
    if !LegacyEquality.EqualIdent(a.name, b.name) then []
    else if !LegacyEquality.EqualFuncType(env, Some(a.typ), Some(b.typ)) then [Note(Severity.Major, "function signature has changed")]
    else []
  }

  /** Row `l` of the nested loops: the changes for `l` against each previous function in turn. */
  function RowChanges(env: Env, P: seq<FuncDecl>, l: FuncDecl): seq<Diffs.Change>
    decreases |P|
  {
    if P == [] then [] else RowChanges(env, P[..|P| - 1], l) + DeclChanges(env, P[|P| - 1], l)
  }

  /** The rows for `Ls`, one after the other. */
  function GridChanges(env: Env, P: seq<FuncDecl>, Ls: seq<FuncDecl>): seq<Diffs.Change>
    decreases |Ls|
  {
    if Ls == [] then [] else GridChanges(env, P, Ls[..|Ls| - 1]) + RowChanges(env, P, Ls[|Ls| - 1])
  }

  /**
   * The changes `compareFuncs` stores for the extracted lists: a removal
   * when latest has fewer functions; otherwise the rows of the first
   * `|P|` latest functions, and an addition when latest has more.
   */
  function FuncsChanges(env: Env, P: seq<FuncDecl>, L: seq<FuncDecl>): seq<Diffs.Change> {
    if |L| < |P| then [Note(Severity.Major, "an exported function has been removed")]
    else if P == [] then []
    else GridChanges(env, P, L[..|P|]) + (if |L| > |P| then [Note(Severity.Minor, "an exported function has been added")] else [])
  }

  /** `compareFuncDecl(diff, a, b)`: stores the changes of `DeclChanges` into `diff`, which it returns. */
  method CompareFuncDecl(diff: Diff, a: FuncDecl, b: FuncDecl, env: Env) returns (r: Diff, ghost added: seq<Entry>)
    modifies diff
    ensures r == diff
    ensures Records(added, DeclChanges(env, a, b)) && forall k :: 0 <= k < |added| ==> fresh(added[k])
    ensures diff.entries == old(diff.entries) + Elems(added)
  {
    added := [];
    r := diff;
    if !LegacyEquality.EqualIdent(a.name, b.name) {
      return;
    }
    if !LegacyEquality.EqualFuncType(env, Some(a.typ), Some(b.typ)) {
      var e;
      r, e := Set(diff, Note(Severity.Major, "function signature has changed"));
      added := [e];
    }
  }

  /**
   * One pass of the inner loop of `compareFuncs`: `compareFuncDecl` of
   * every previous function against `l`, each result merged into `diff`
   * (the same map, so the merge adds nothing).
   */
  method CompareRow(diff: Diff, P: seq<FuncDecl>, l: FuncDecl, env: Env) returns (ghost added: seq<Entry>)
    modifies diff
    ensures Records(added, RowChanges(env, P, l))
    ensures forall k :: 0 <= k < |added| ==> fresh(added[k])
    ensures diff.entries == old(diff.entries) + Elems(added)
  {
    added := [];
    var j := 0;
    while j < |P|
      invariant 0 <= j <= |P|
      invariant Records(added, RowChanges(env, P[..j], l))
      invariant forall k :: 0 <= k < |added| ==> fresh(added[k])
      invariant diff.entries == old(diff.entries) + Elems(added)
    {
      assert P[..j + 1][..j] == P[..j];
      var d, more := CompareFuncDecl(diff, P[j], l, env);
      var m := Merge(diff, d);
      AppendAllRecords(added, RowChanges(env, P[..j], l), more, DeclChanges(env, P[j], l));
      ElemsAppend(added, more);
      added := added + more;
      j := j + 1;
    }
    assert P[..j] == P;
  }

  /**
   * `compareFuncs(diff, previous, latest)`: stores the changes of
   * `FuncsChanges` into `diff`, which it returns. The guard `i >= len(previous)`
   * that the code tests at the head of the inner loop is tested before the
   * inner loop here; with a non-empty previous list the two are the same.
   */
  method CompareFuncs(diff: Diff, previous: Option<Node>, latest: Option<Node>, env: Env) returns (r: Diff, ghost added: seq<Entry>)
    modifies diff
    ensures r == diff
    ensures Records(added, FuncsChanges(env, Funcs.Funcs(previous, env), Funcs.Funcs(latest, env)))
    ensures diff.entries == old(diff.entries) + Elems(added)
  {
    var P := Funcs.ExtractFuncs(previous, env);
    var L := Funcs.ExtractFuncs(latest, env);
    r := diff;
    added := [];
    if |L| < |P| {
      var e;
      r, e := Set(diff, Note(Severity.Major, "an exported function has been removed"));
      added := [e];
      return;
    }
    r, added := CompareRows(diff, P, L, env);
  }

  /** The nested loops of `compareFuncs`, once latest has at least as many functions as previous. */
  method CompareRows(diff: Diff, P: seq<FuncDecl>, L: seq<FuncDecl>, env: Env) returns (r: Diff, ghost added: seq<Entry>)
    requires |L| >= |P|
    modifies diff
    ensures r == diff
    ensures Records(added, FuncsChanges(env, P, L))
    ensures diff.entries == old(diff.entries) + Elems(added)
  {
    r := diff;
    added := [];
    var i := 0;
    while i < |L|
      invariant 0 <= i <= |L|
      invariant P != [] ==> i <= |P|
      invariant Records(added, Stored(env, P, L[..i]))
      invariant diff.entries == old(diff.entries) + Elems(added)
    {
      if P != [] && i >= |P| {
        var e;
        ghost var mid := diff.entries;
        r, e := Set(diff, Note(Severity.Minor, "an exported function has been added"));
        AdditionStep(env, P, L, i, added, e);
        Grow(old(diff.entries), mid, diff.entries, added, [e]);
        added := added + [e];
        return;
      }
      ghost var mid := diff.entries;
      ghost var more := CompareRow(diff, P, L[i], env);
      RowStep(env, P, L, i, added, more);
      Grow(old(diff.entries), mid, diff.entries, added, more);
      added := added + more;
      i := i + 1;
    }
    assert L[..i] == L;
  }

  /** What the outer loop of `compareFuncs` has stored after the rows `Ls`. */
  function Stored(env: Env, P: seq<FuncDecl>, Ls: seq<FuncDecl>): seq<Diffs.Change> {
    if P == [] then [] else GridChanges(env, P, Ls)
  }

  lemma RowStep(env: Env, P: seq<FuncDecl>, L: seq<FuncDecl>, i: nat, added: seq<Entry>, more: seq<Entry>)
    requires i < |L| && (P != [] ==> i < |P|)
    requires Records(added, Stored(env, P, L[..i])) && Records(more, RowChanges(env, P, L[i]))
    requires forall k :: 0 <= k < |more| ==> more[k] !in added
    ensures Records(added + more, Stored(env, P, L[..i + 1]))
    ensures Elems(added + more) == Elems(added) + Elems(more)
  {
    assert L[..i + 1][..i] == L[..i];
    AppendAllRecords(added, Stored(env, P, L[..i]), more, RowChanges(env, P, L[i]));
    ElemsAppend(added, more);
  }

  lemma AdditionStep(env: Env, P: seq<FuncDecl>, L: seq<FuncDecl>, i: nat, added: seq<Entry>, e: Entry)
    requires P != [] && i == |P| < |L|
    requires Records(added, Stored(env, P, L[..i]))
    requires e.change == Note(Severity.Minor, "an exported function has been added") && e !in added
    ensures Records(added + [e], FuncsChanges(env, P, L))
    ensures Elems(added + [e]) == Elems(added) + {e}
  {
    assert L[..i] == L[..|P|];
    AppendRecords(added, GridChanges(env, P, L[..i]), e, Note(Severity.Minor, "an exported function has been added"));
    ElemsAppend(added, [e]);
  }

  /** Storing one more fresh entry records one more change. */
  lemma AppendRecords(es: seq<Entry>, cs: seq<Diffs.Change>, e: Entry, c: Diffs.Change)
    requires Records(es, cs) && e.change == c && e !in es
    ensures Records(es + [e], cs + [c])
  {
  }

  lemma UnionEmpty(a: set<Entry>, b: set<Entry>)
    requires a == {}
    ensures a + b == b
  {
  }

  /** Entries stored in two steps are the entries of both steps. */
  lemma Grow(start: set<Entry>, mid: set<Entry>, now: set<Entry>, es: seq<Entry>, more: seq<Entry>)
    requires mid == start + Elems(es) && now == mid + Elems(more)
    ensures now == start + Elems(es + more)
  {
    ElemsAppend(es, more);
  }

  lemma {:induction false} ElemsAppend(es: seq<Entry>, more: seq<Entry>)
    ensures Elems(es + more) == Elems(es) + Elems(more)
    decreases |more|
  {
    if more == [] {
      assert es + more == es;
    } else {
      var n := |more| - 1;
      ElemsAppend(es, more[..n]);
      assert (es + more)[..|es + more| - 1] == es + more[..n];
    }
  }

  lemma AppendAllRecords(es: seq<Entry>, cs: seq<Diffs.Change>, more: seq<Entry>, ds: seq<Diffs.Change>)
    requires Records(es, cs) && Records(more, ds)
    requires forall k :: 0 <= k < |more| ==> more[k] !in es
    ensures Records(es + more, cs + ds)
  {
  }

  /** What `Compare` stores into its fresh map. */
  function CompareChanges(previous: Option<Node>, latest: Option<Node>, env: Env): seq<Diffs.Change> {
    if previous.None? && latest.None? then []
    else if previous.None? then [Note(Severity.Major, "removal of package")]
    else if latest.None? then [Note(Severity.Minor, "addition of package")]
    else FuncsChanges(env, Funcs.Funcs(previous, env), Funcs.Funcs(latest, env))
  }

  /**
   * `Compare`: package presence, then `compose` over the single
   * comparator `compareFuncs`, whose result is merged into the same map.
   */
  method Compare(previous: Option<Node>, latest: Option<Node>, env: Env) returns (diff: Diff, ghost added: seq<Entry>)
    ensures fresh(diff)
    ensures Records(added, CompareChanges(previous, latest, env))
    ensures diff.entries == Elems(added)
  {
    diff := new Diff();
    added := [];
    if previous.None? && latest.None? {
      return;
    }
    var e;
    if previous.None? {
      diff, e := Set(diff, Note(Severity.Major, "removal of package"));
      added := [e];
      Single(e);
      return;
    }
    if latest.None? {
      diff, e := Set(diff, Note(Severity.Minor, "addition of package"));
      added := [e];
      Single(e);
      return;
    }
    ghost var before := diff.entries;
    diff, added := Compose(diff, previous, latest, env);
    UnionEmpty(before, Elems(added));
  }

  lemma Single(e: Entry)
    ensures Records([e], [e.change]) && Elems([e]) == {e}
  {
  }

  /**
   * `compose(diff, previous, latest)(compareFuncs)`: the single comparator's
   * result is merged into `diff`, which is the map it already wrote to.
   */
  method Compose(diff: Diff, previous: Option<Node>, latest: Option<Node>, env: Env) returns (r: Diff, ghost added: seq<Entry>)
    modifies diff
    ensures r == diff
    ensures Records(added, FuncsChanges(env, Funcs.Funcs(previous, env), Funcs.Funcs(latest, env)))
    ensures diff.entries == old(diff.entries) + Elems(added)
  {
    var q;
    q, added := CompareFuncs(diff, previous, latest, env);
    r := Merge(diff, q);
  }

  /** `Type()` of a map holding exactly the recorded entries is the severity of the recorded changes. */
  lemma TypeOfRecords(es: seq<Entry>, cs: seq<Diffs.Change>, t: Severity.Type)
    requires Records(es, cs) && IsTypeOf(Elems(es), t)
    ensures t == Diffs.TypeOf(cs)
  {
    var u := Diffs.TypeOf(cs);
    forall k | 0 <= k < |cs| ensures Severity.AtMost(cs[k].typ, t) {
      ElemsMember(es, es[k]);
    }
    if t != Severity.Patch {
      var e :| e in Elems(es) && e.change.typ == t;
      ElemsMember(es, e);
      var k :| 0 <= k < |es| && es[k] == e;
      assert Severity.AtMost(cs[k].typ, u);
    }
    if u != Severity.Patch {
      var k :| 0 <= k < |cs| && cs[k].typ == u;
      ElemsMember(es, es[k]);
    }
    Severity.RankInjective(t, u);
  }

  /** The one change `compareFuncDecl` stores. */
  function SignatureChanged(): Diffs.Change {
    Note(Severity.Major, "function signature has changed")
  }

  /** Two absent snapshots: nothing is stored, so `Type()` is Patch. */
  lemma BothAbsentIsPatch(env: Env)
    ensures CompareChanges(None, None, env) == []
    ensures Diffs.TypeOf(CompareChanges(None, None, env)) == Severity.Patch
  {
  }

  /** Labels exactly as the code writes them: a missing previous snapshot is a Major "removal", a missing latest one a Minor "addition". */
  lemma PresenceLabels(n: Node, env: Env)
    ensures CompareChanges(None, Some(n), env) == [Note(Severity.Major, "removal of package")]
    ensures CompareChanges(Some(n), None, env) == [Note(Severity.Minor, "addition of package")]
  {
  }

  /** Fewer exported functions in latest: exactly one Major removal is stored and nothing else is compared. */
  lemma FewerIsOneRemoval(env: Env, P: seq<FuncDecl>, L: seq<FuncDecl>)
    requires |L| < |P|
    ensures FuncsChanges(env, P, L) == [Note(Severity.Major, "an exported function has been removed")]
    ensures Diffs.TypeOf(FuncsChanges(env, P, L)) == Severity.Major
  {
    assert FuncsChanges(env, P, L)[..0] == [];
  }

  /** More exported functions in latest than in a non-empty previous: an addition is stored last, so the diff is at least Minor. */
  lemma MoreEndsWithAddition(env: Env, P: seq<FuncDecl>, L: seq<FuncDecl>)
    requires P != [] && |L| > |P|
    ensures var cs := FuncsChanges(env, P, L);
            cs != [] && cs[|cs| - 1] == Note(Severity.Minor, "an exported function has been added")
            && Severity.AtMost(Severity.Minor, Diffs.TypeOf(cs))
  {
  }
}
