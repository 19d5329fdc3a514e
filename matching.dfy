/**
 * The greedy slot table that func.go, type-spec.go, value-spec.go and
 * const.go each build: one slot per previous declaration, in order; every
 * latest declaration is written into the previous slots whose key matches
 * it (into the first one only, in the variants that `break`), and one that
 * matches none gets an addition slot of its own at the end. The inner scan
 * stops at the first slot without a previous entry, so it never looks at
 * addition slots.
 */
module Matching {
  import opened Wrappers

  /** One `[2]*T` row of the `match` table: the previous and the latest declaration. */
  datatype Slot<T> = Slot(previous: Option<T>, latest: Option<T>)

  predicate Occupied<T>(s: Slot<T>) {
    s.previous.Some? || s.latest.Some?
  }

  /** The table before any latest declaration is placed. */
  function Initial<T>(previous: seq<T>): (r: seq<Slot<T>>)
    ensures |r| == |previous|
    ensures forall i :: 0 <= i < |r| ==> r[i] == Slot(Some(previous[i]), None)
  {
    seq(|previous|, i requires 0 <= i < |previous| => Slot(Some(previous[i]), None))
  }

  /**
   * The inner loop from slot `j` on, for the latest declaration `l`: the
   * updated table and whether some slot matched.
   */
  function Scan<T>(t: seq<Slot<T>>, l: T, j: nat, key: (T, T) -> bool, firstOnly: bool): (r: (seq<Slot<T>>, bool))
    requires j <= |t|
    ensures |r.0| == |t|
    decreases |t| - j
  {
    if j == |t| || t[j].previous.None? then (t, false)
    else if key(t[j].previous.value, l) then
      var t' := t[j := Slot(t[j].previous, Some(l))];
      if firstOnly then (t', true) else (Scan(t', l, j + 1, key, firstOnly).0, true)
    else Scan(t, l, j + 1, key, firstOnly)
  }

  /** One iteration of the outer loop: scan, then append an addition slot if nothing matched. */
  function Place<T>(t: seq<Slot<T>>, l: T, key: (T, T) -> bool, firstOnly: bool): seq<Slot<T>> {
    var r := Scan(t, l, 0, key, firstOnly);
    if r.1 then r.0 else r.0 + [Slot(None, Some(l))]
  }

  /** The table after every latest declaration has been placed, in order. */
  function Table<T>(previous: seq<T>, latest: seq<T>, key: (T, T) -> bool, firstOnly: bool): seq<Slot<T>>
    decreases |latest|
  {
    if latest == [] then Initial(previous)
    else Place(Table(previous, latest[..|latest| - 1], key, firstOnly), latest[|latest| - 1], key, firstOnly)
  }

  /** The two nested loops that fill the `match` table in place. */
  method BuildTable<T>(previous: seq<T>, latest: seq<T>, key: (T, T) -> bool, firstOnly: bool)
    returns (table: seq<Slot<T>>)
    ensures table == Table(previous, latest, key, firstOnly)
  {
    table := [];
    var i := 0;
    while i < |previous|
      invariant 0 <= i <= |previous|
      invariant table == Initial(previous[..i])
    {
      table := table + [Slot(Some(previous[i]), None)];
      i := i + 1;
    }
    assert previous[..i] == previous;
    var k := 0;
    while k < |latest|
      invariant 0 <= k <= |latest|
      invariant table == Table(previous, latest[..k], key, firstOnly)
    {
      var l := latest[k];
      var found := false;
      ghost var start := table;
      var j := 0;
      while j < |table|
        invariant 0 <= j <= |table| == |start|
        invariant Scan(start, l, 0, key, firstOnly)
               == (Scan(table, l, j, key, firstOnly).0, found || Scan(table, l, j, key, firstOnly).1)
      {
        var p := table[j].previous;
        if p.None? {
          break;
        }
        if key(p.value, l) {
          table := table[j := Slot(p, Some(l))];
          found := true;
          if firstOnly {
            break;
          }
        }
        j := j + 1;
      }
      assert Scan(start, l, 0, key, firstOnly) == (table, found);
      if !found {
        table := table + [Slot(None, Some(l))];
      }
      assert latest[..k + 1][..k] == latest[..k];
      k := k + 1;
    }
    assert latest[..k] == latest;
  }

  /**
   * Latest declaration `l` is written into previous slot `i`: the keys
   * match and, in the variants that `break`, no earlier slot matches.
   */
  predicate Claims<T>(previous: seq<T>, i: nat, l: T, key: (T, T) -> bool, firstOnly: bool)
    requires i < |previous|
  {
    key(previous[i], l) && (!firstOnly || forall i' :: 0 <= i' < i ==> !key(previous[i'], l))
  }

  /** Some previous declaration matches `l`. */
  predicate Matched<T>(previous: seq<T>, l: T, key: (T, T) -> bool) {
    exists i :: 0 <= i < |previous| && key(previous[i], l)
  }

  /** The last latest declaration written into slot `i`: later writes overwrite earlier ones. */
  function LastClaim<T>(previous: seq<T>, latest: seq<T>, i: nat, key: (T, T) -> bool, firstOnly: bool): Option<T>
    requires i < |previous|
    decreases |latest|
  {
    if latest == [] then None
    else if Claims(previous, i, latest[|latest| - 1], key, firstOnly) then Some(latest[|latest| - 1])
    else LastClaim(previous, latest[..|latest| - 1], i, key, firstOnly)
  }

  /** The latest declarations no previous declaration matches, in order. */
  function Unmatched<T>(previous: seq<T>, latest: seq<T>, key: (T, T) -> bool): seq<T>
    decreases |latest|
  {
    if latest == [] then []
    else Unmatched(previous, latest[..|latest| - 1], key)
         + (if Matched(previous, latest[|latest| - 1], key) then [] else [latest[|latest| - 1]])
  }

  /** Slots `0..n` hold the previous declarations in order; later slots hold none. */
  ghost predicate Shaped<T>(t: seq<Slot<T>>, previous: seq<T>) {
    && |previous| <= |t|
    && (forall i :: 0 <= i < |previous| ==> t[i].previous == Some(previous[i]))
    && (forall i :: |previous| <= i < |t| ==> t[i].previous.None?)
  }

  /** `l` is written into slot `i` by a scan that starts at slot `j`. */
  predicate ClaimsFrom<T>(previous: seq<T>, j: nat, i: nat, l: T, key: (T, T) -> bool, firstOnly: bool)
    requires i < |previous|
  {
    key(previous[i], l) && (!firstOnly || forall i' :: j <= i' < i ==> !key(previous[i'], l))
  }

  /** What a scan from slot `j` does to a well-shaped table. */
  lemma {:induction false} ScanEffect<T>(t: seq<Slot<T>>, previous: seq<T>, l: T, j: nat, key: (T, T) -> bool, firstOnly: bool)
    requires Shaped(t, previous) && j <= |previous|
    ensures var r := Scan(t, l, j, key, firstOnly);
            && (r.1 <==> exists i :: j <= i < |previous| && key(previous[i], l))
            && forall i :: 0 <= i < |t| ==>
                 r.0[i] == if j <= i < |previous| && ClaimsFrom(previous, j, i, l, key, firstOnly)
                           then Slot(t[i].previous, Some(l)) else t[i]
    decreases |previous| - j
  {
    var r := Scan(t, l, j, key, firstOnly);
    if j == |previous| {
      assert j == |t| || t[j].previous.None?;
    } else {
      assert t[j].previous == Some(previous[j]);
      if key(previous[j], l) {
        var t' := t[j := Slot(t[j].previous, Some(l))];
        if !firstOnly {
          ScanEffect(t', previous, l, j + 1, key, firstOnly);
        }
      } else {
        ScanEffect(t, previous, l, j + 1, key, firstOnly);
        forall i | j + 1 <= i < |previous|
          ensures ClaimsFrom(previous, j, i, l, key, firstOnly) == ClaimsFrom(previous, j + 1, i, l, key, firstOnly)
        {
          if firstOnly && ClaimsFrom(previous, j + 1, i, l, key, firstOnly) {
            forall i' | j <= i' < i ensures !key(previous[i'], l) {
              if i' == j {
              } else {
                assert j + 1 <= i' < i;
              }
            }
          }
        }
      }
    }
  }

  /**
   * The meaning of the table: one slot per previous declaration, in order,
   * holding the last latest declaration that claims it; then one addition
   * slot per unmatched latest declaration, in order.
   */
  lemma {:induction false} TableShape<T>(previous: seq<T>, latest: seq<T>, key: (T, T) -> bool, firstOnly: bool)
    ensures var t := Table(previous, latest, key, firstOnly);
            var u := Unmatched(previous, latest, key);
            && |t| == |previous| + |u|
            && (forall i :: 0 <= i < |previous| ==>
                  t[i] == Slot(Some(previous[i]), LastClaim(previous, latest, i, key, firstOnly)))
            && (forall i :: |previous| <= i < |t| ==> t[i] == Slot(None, Some(u[i - |previous|])))
    decreases |latest|
  {
    if latest != [] {
      var latest', l := latest[..|latest| - 1], latest[|latest| - 1];
      TableShape(previous, latest', key, firstOnly);
      var t' := Table(previous, latest', key, firstOnly);
      assert Shaped(t', previous);
      ScanEffect(t', previous, l, 0, key, firstOnly);
      var r := Scan(t', l, 0, key, firstOnly);
      assert r.1 <==> Matched(previous, l, key);
      forall i | 0 <= i < |previous|
        ensures ClaimsFrom(previous, 0, i, l, key, firstOnly) == Claims(previous, i, l, key, firstOnly)
      {
      }
    }
  }

  /** Every slot holds at least one declaration. */
  lemma TableOccupied<T>(previous: seq<T>, latest: seq<T>, key: (T, T) -> bool, firstOnly: bool)
    ensures forall i :: 0 <= i < |Table(previous, latest, key, firstOnly)| ==>
              Occupied(Table(previous, latest, key, firstOnly)[i])
  {
    TableShape(previous, latest, key, firstOnly);
  }

  /** A previous slot is left without a latest entry exactly when nothing claims it. */
  lemma {:induction false} LastClaimNone<T>(previous: seq<T>, latest: seq<T>, i: nat, key: (T, T) -> bool, firstOnly: bool)
    requires i < |previous|
    ensures LastClaim(previous, latest, i, key, firstOnly).None?
        <==> forall k :: 0 <= k < |latest| ==> !Claims(previous, i, latest[k], key, firstOnly)
    decreases |latest|
  {
    if latest != [] {
      var latest' := latest[..|latest| - 1];
      LastClaimNone(previous, latest', i, key, firstOnly);
      assert forall k :: 0 <= k < |latest'| ==> latest'[k] == latest[k];
    }
  }

  /** The last latest declaration that claims slot `i` is the one the slot ends up holding. */
  lemma {:induction false} LastClaimSome<T>(previous: seq<T>, latest: seq<T>, i: nat, k: nat, key: (T, T) -> bool, firstOnly: bool)
    requires i < |previous| && k < |latest| && Claims(previous, i, latest[k], key, firstOnly)
    requires forall k' :: k < k' < |latest| ==> !Claims(previous, i, latest[k'], key, firstOnly)
    ensures LastClaim(previous, latest, i, key, firstOnly) == Some(latest[k])
    decreases |latest|
  {
    if k < |latest| - 1 {
      var latest' := latest[..|latest| - 1];
      assert latest'[k] == latest[k];
      LastClaimSome(previous, latest', i, k, key, firstOnly);
    }
  }

  /** When every latest declaration matches some previous one, no addition slot is made. */
  lemma {:induction false} UnmatchedNone<T>(previous: seq<T>, latest: seq<T>, key: (T, T) -> bool)
    requires forall k :: 0 <= k < |latest| ==> Matched(previous, latest[k], key)
    ensures Unmatched(previous, latest, key) == []
    decreases |latest|
  {
    if latest != [] {
      var latest' := latest[..|latest| - 1];
      assert forall k :: 0 <= k < |latest'| ==> latest'[k] == latest[k];
      UnmatchedNone(previous, latest', key);
    }
  }

  /** A latest declaration that matches no previous one gets an addition slot. */
  lemma {:induction false} UnmatchedMember<T>(previous: seq<T>, latest: seq<T>, k: nat, key: (T, T) -> bool)
    requires k < |latest| && !Matched(previous, latest[k], key)
    ensures latest[k] in Unmatched(previous, latest, key)
    decreases |latest|
  {
    if k < |latest| - 1 {
      UnmatchedMember(previous, latest[..|latest| - 1], k, key);
    }
  }

  /** Every declaration in an addition slot is a latest one that matches no previous one. */
  lemma {:induction false} UnmatchedSound<T>(previous: seq<T>, latest: seq<T>, key: (T, T) -> bool)
    ensures forall l :: l in Unmatched(previous, latest, key) ==> l in latest && !Matched(previous, l, key)
    decreases |latest|
  {
    if latest != [] {
      UnmatchedSound(previous, latest[..|latest| - 1], key);
    }
  }

  /**
   * With or without `break`, a later latest declaration with the same key
   * overwrites an earlier one, which then appears neither in a slot nor as
   * an addition.
   */
  lemma DuplicateOverwrites<T>(p: T, l1: T, l2: T, key: (T, T) -> bool)
    requires key(p, l1) && key(p, l2)
    ensures Table([p], [l1, l2], key, false) == [Slot(Some(p), Some(l2))]
    ensures Table([p], [l1, l2], key, true) == [Slot(Some(p), Some(l2))]
  {
    assert [l1, l2][..1] == [l1];
    assert [l1][..0] == [];
    assert [p][0] == p;
    assert key([p][0], l1) && key([p][0], l2);
    assert Matched([p], l1, key) && Matched([p], l2, key);
    assert Unmatched([p], [l1], key) == [];
    assert Unmatched([p], [l1, l2], key) == [];
    assert Claims([p], 0, l2, key, false) && Claims([p], 0, l2, key, true);
    TableShape([p], [l1, l2], key, false);
    TableShape([p], [l1, l2], key, true);
  }

  /**
   * Two previous declarations with the key of one latest declaration:
   * without `break` both slots receive it, with `break` only the first.
   */
  lemma BreakFillsFirstOnly<T>(p1: T, p2: T, l: T, key: (T, T) -> bool)
    requires key(p1, l) && key(p2, l)
    ensures Table([p1, p2], [l], key, false) == [Slot(Some(p1), Some(l)), Slot(Some(p2), Some(l))]
    ensures Table([p1, p2], [l], key, true) == [Slot(Some(p1), Some(l)), Slot(Some(p2), None)]
  {
    var P := [p1, p2];
    assert [l][..0] == [];
    assert key(P[0], l);
    assert Matched(P, l, key);
    assert Unmatched(P, [l], key) == [];
    assert Claims(P, 0, l, key, false) && Claims(P, 1, l, key, false);
    assert Claims(P, 0, l, key, true) && !Claims(P, 1, l, key, true);
    TableShape(P, [l], key, false);
    TableShape(P, [l], key, true);
  }
}
