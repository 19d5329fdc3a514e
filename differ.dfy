/**
 * The shape shared by `compareFuncs`, `compareTypeSpec`, `compareValueSpec`
 * and `compareConsts`: fill the slot table, then merge, slot after slot,
 * the diff a per-pair rule gives for each slot. Only the key, the `break`
 * and the rule differ between them.
 */
module Differ {
  import opened Wrappers
  import opened Matching
  import opened Diffs
  import Severity

  /** A per-pair rule accepts every occupied slot, the only kind the table holds. */
  ghost predicate AcceptsOccupied<T(!new)>(rule: Slot<T> --> Diff) {
    forall s: Slot<T> :: Occupied(s) ==> rule.requires(s)
  }

  /** The merged diff of the table built from `previous` and `latest`. */
  function Outcome<T(!new)>(previous: seq<T>, latest: seq<T>, key: (T, T) -> bool, firstOnly: bool, rule: Slot<T> --> Diff): Diff
    requires AcceptsOccupied(rule)
  {
    TableOccupied(previous, latest, key, firstOnly);
    ConcatMap(Table(previous, latest, key, firstOnly), rule)
  }

  /** The `for _, m := range match { diff = diff.Merge(rule(m[0], m[1])) }` loop. */
  method MergeSlots<T>(table: seq<Slot<T>>, rule: Slot<T> --> Diff) returns (diff: Diff)
    requires forall i :: 0 <= i < |table| ==> rule.requires(table[i])
    ensures diff == ConcatMap(table, rule)
  {
    diff := [];
    var i := 0;
    while i < |table|
      invariant 0 <= i <= |table|
      invariant diff == ConcatMap(table[..i], rule)
    {
      assert table[..i + 1][..i] == table[..i];
      diff := Merge(diff, rule(table[i]));
      i := i + 1;
    }
    assert table[..i] == table;
  }

  /** Build the table, then merge the per-slot diffs. */
  method Compare<T(!new)>(previous: seq<T>, latest: seq<T>, key: (T, T) -> bool, firstOnly: bool, rule: Slot<T> --> Diff)
    returns (diff: Diff)
    requires AcceptsOccupied(rule)
    ensures diff == Outcome(previous, latest, key, firstOnly, rule)
  {
    var table := BuildTable(previous, latest, key, firstOnly);
    TableOccupied(previous, latest, key, firstOnly);
    diff := MergeSlots(table, rule);
  }

  /** A latest declaration no previous one matches contributes what the rule says of an addition. */
  lemma AdditionContributes<T(!new)>(previous: seq<T>, latest: seq<T>, k: nat, key: (T, T) -> bool, firstOnly: bool,
                                     rule: Slot<T> --> Diff, c: Change)
    requires AcceptsOccupied(rule)
    requires k < |latest| && !Matched(previous, latest[k], key)
    requires c in rule(Slot(None, Some(latest[k])))
    ensures c in Outcome(previous, latest, key, firstOnly, rule)
  {
    var t := Table(previous, latest, key, firstOnly);
    var u := Unmatched(previous, latest, key);
    TableShape(previous, latest, key, firstOnly);
    TableOccupied(previous, latest, key, firstOnly);
    UnmatchedMember(previous, latest, k, key);
    var j :| 0 <= j < |u| && u[j] == latest[k];
    assert t[|previous| + j] == Slot(None, Some(latest[k]));
    ConcatMapContains(t, rule, |previous| + j, c);
  }

  /** A previous declaration no latest one claims contributes what the rule says of a removal. */
  lemma RemovalContributes<T(!new)>(previous: seq<T>, latest: seq<T>, i: nat, key: (T, T) -> bool, firstOnly: bool,
                                    rule: Slot<T> --> Diff, c: Change)
    requires AcceptsOccupied(rule)
    requires i < |previous| && forall k :: 0 <= k < |latest| ==> !Claims(previous, i, latest[k], key, firstOnly)
    requires c in rule(Slot(Some(previous[i]), None))
    ensures c in Outcome(previous, latest, key, firstOnly, rule)
  {
    var t := Table(previous, latest, key, firstOnly);
    TableShape(previous, latest, key, firstOnly);
    TableOccupied(previous, latest, key, firstOnly);
    LastClaimNone(previous, latest, i, key, firstOnly);
    assert t[i] == Slot(Some(previous[i]), None);
    ConcatMapContains(t, rule, i, c);
  }

  /** The slot of a previous declaration, holding the latest one that claims it last. */
  lemma PairContributes<T(!new)>(previous: seq<T>, latest: seq<T>, i: nat, key: (T, T) -> bool, firstOnly: bool,
                                 rule: Slot<T> --> Diff, c: Change)
    requires AcceptsOccupied(rule)
    requires i < |previous|
    requires c in rule(Slot(Some(previous[i]), LastClaim(previous, latest, i, key, firstOnly)))
    ensures c in Outcome(previous, latest, key, firstOnly, rule)
  {
    var t := Table(previous, latest, key, firstOnly);
    TableShape(previous, latest, key, firstOnly);
    TableOccupied(previous, latest, key, firstOnly);
    ConcatMapContains(t, rule, i, c);
  }

  /** A rule that emits at most one change per slot bounds the diff by the table's size. */
  lemma AtMostOnePerSlot<T(!new)>(previous: seq<T>, latest: seq<T>, key: (T, T) -> bool, firstOnly: bool,
                                  rule: Slot<T> --> Diff)
    requires AcceptsOccupied(rule)
    requires forall s: Slot<T> :: Occupied(s) ==> |rule(s)| <= 1
    ensures |Outcome(previous, latest, key, firstOnly, rule)| <= |previous| + |Unmatched(previous, latest, key)|
  {
    var t := Table(previous, latest, key, firstOnly);
    TableShape(previous, latest, key, firstOnly);
    TableOccupied(previous, latest, key, firstOnly);
    ConcatMapAtMostOne(t, rule);
  }

  /**
   * Comparing a list with itself, when each declaration matches exactly
   * itself, pairs every declaration with itself and adds nothing.
   */
  lemma SelfPairs<T(!new)>(previous: seq<T>, key: (T, T) -> bool, firstOnly: bool)
    requires forall i, k :: 0 <= i < |previous| && 0 <= k < |previous| ==> (key(previous[i], previous[k]) <==> i == k)
    ensures var t := Table(previous, previous, key, firstOnly);
            |t| == |previous| && forall i :: 0 <= i < |t| ==> t[i] == Slot(Some(previous[i]), Some(previous[i]))
  {
    TableShape(previous, previous, key, firstOnly);
    forall k | 0 <= k < |previous|
      ensures Matched(previous, previous[k], key)
    {
      assert key(previous[k], previous[k]);
    }
    UnmatchedNone(previous, previous, key);
    forall i | 0 <= i < |previous|
      ensures LastClaim(previous, previous, i, key, firstOnly) == Some(previous[i])
    {
      assert Claims(previous, i, previous[i], key, firstOnly);
      forall k | i < k < |previous|
        ensures !Claims(previous, i, previous[k], key, firstOnly)
      {
      }
      LastClaimSome(previous, previous, i, i, key, firstOnly);
    }
  }

  /** Comparing a list with itself under keys unique to each declaration: every pair is a self-pair. */
  lemma SelfOutcome<T(!new)>(previous: seq<T>, key: (T, T) -> bool, firstOnly: bool, rule: Slot<T> --> Diff)
    requires AcceptsOccupied(rule)
    requires forall i, k :: 0 <= i < |previous| && 0 <= k < |previous| ==> (key(previous[i], previous[k]) <==> i == k)
    requires forall i :: 0 <= i < |previous| ==> rule(Slot(Some(previous[i]), Some(previous[i]))) == []
    ensures Outcome(previous, previous, key, firstOnly, rule) == []
  {
    var t := Table(previous, previous, key, firstOnly);
    SelfPairs(previous, key, firstOnly);
    TableOccupied(previous, previous, key, firstOnly);
    ConcatMapEmpty(t, rule);
  }
}
