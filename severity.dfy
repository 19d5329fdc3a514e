/**
 * The severity scale shared by every generation of the engine: the `Type`
 * constants of internal/ast/ast.go and the `Difference` constants of
 * pkg/ast/ast.go are both declared with iota as None, Patch, Minor, Major.
 */
module Severity {

  datatype Type = None | Patch | Minor | Major

  /** The iota value of each constant. */
  function Rank(t: Type): (r: nat)
    ensures r <= 3
  {
    match t
    case None => 0
    case Patch => 1
    case Minor => 2
    case Major => 3
  }

  /** Go's `<` on the integer-valued constants. */
  predicate Less(a: Type, b: Type) {
    Rank(a) < Rank(b)
  }

  predicate AtMost(a: Type, b: Type) {
    Rank(a) <= Rank(b)
  }

  /** The larger of two severities: the `if diff < t { diff = t }` step of every aggregation. */
  function Max(a: Type, b: Type): (r: Type)
    ensures AtMost(a, r) && AtMost(b, r)
    ensures r == a || r == b
  {
    if Less(a, b) then b else a
  }

  /** `t.String()`: the entry of the `types` table for each constant. */
  function Name(t: Type): (s: string)
    ensures s == "NONE" || s == "PATCH" || s == "MINOR" || s == "MAJOR"
    ensures |s| >= 4
  {
    match t
    case None => "NONE"
    case Patch => "PATCH"
    case Minor => "MINOR"
    case Major => "MAJOR"
  }

  /** Distinct severities print differently. */
  lemma NameInjective(a: Type, b: Type)
    ensures Name(a) == Name(b) ==> a == b
  {
  }

  /** Rank is injective, so the order on severities is a total order. */
  lemma RankInjective(a: Type, b: Type)
    ensures Rank(a) == Rank(b) <==> a == b
  {
  }

  /** None < Patch < Minor < Major. */
  lemma ScaleOrder()
    ensures Less(None, Patch) && Less(Patch, Minor) && Less(Minor, Major)
    ensures forall t :: AtMost(None, t) && AtMost(t, Major)
  {
  }

  lemma MaxCommutative(a: Type, b: Type)
    ensures Max(a, b) == Max(b, a)
  {
  }

  lemma MaxAssociative(a: Type, b: Type, c: Type)
    ensures Max(Max(a, b), c) == Max(a, Max(b, c))
  {
  }

  /** Major absorbs everything and None is the identity of Max. */
  lemma MaxBounds(a: Type)
    ensures Max(a, Major) == Major && Max(Major, a) == Major
    ensures Max(a, None) == a && Max(None, a) == a
  {
  }
}
