/**
 * internal/ast/equality.go: structural equality of type expressions. The
 * dispatch closes over eight expression forms; any other form, and any
 * pair of different forms, is unequal. Field lists compare slot by slot,
 * looking at each slot's type and tag but not at the names bound to it.
 */
module Equality {
  import opened Wrappers
  import opened GoSyntax

  /** `equalObject`: both absent, or both present with the same kind and name. */
  function EqualObject(a: Option<Object>, b: Option<Object>): (r: bool)
    ensures r <==> a == b
  {
    if a.None? && b.None? then true
    else if a.None? || b.None? then false
    else a.value.kind == b.value.kind && a.value.name == b.value.name
  }

  /** `equalIdent`: the bound objects agree and the spellings agree. */
  function EqualIdent(a: Ident, b: Ident): (r: bool)
    ensures r <==> a.name == b.name && a.obj == b.obj
  {
    EqualObject(a.obj, b.obj) && a.name == b.name
  }

  /** `equalBasicLit`: both absent, or both present with the same token kind and text. */
  function EqualBasicLit(a: Option<BasicLit>, b: Option<BasicLit>): (r: bool)
    ensures r <==> a == b
  {
    if a.None? && b.None? then true
    else if a.None? || b.None? then false
    else a.value.kind == b.value.kind && a.value.value == b.value.value
  }

  /** The two expressions are built by the same one of the eight handled forms. */
  predicate SameHandledForm(a: Expr, b: Expr) {
    || (a.IdentExpr? && b.IdentExpr?)
    || (a.Ellipsis? && b.Ellipsis?)
    || (a.Star? && b.Star?)
    || (a.ArrayType? && b.ArrayType?)
    || (a.FuncTypeExpr? && b.FuncTypeExpr?)
    || (a.MapType? && b.MapType?)
    || (a.Selector? && b.Selector?)
    || (a.StructType? && b.StructType?)
  }

  /** `equalExpr`: the type switch on the first operand. */
  function EqualExpr(a: Expr, b: Expr): (r: bool)
    ensures r ==> SameHandledForm(a, b)
    decreases a
  {
    match a
    case IdentExpr(t) => b.IdentExpr? && EqualIdent(t, b.ident)
    case Ellipsis(t) => b.Ellipsis? && EqualExpr(t, b.elt)
    case Star(t) => b.Star? && EqualExpr(t, b.x)
    case ArrayType(_, t) => b.ArrayType? && EqualExpr(t, b.elt)
    case FuncTypeExpr(t) => b.FuncTypeExpr? && EqualSignature(t, b.signature)
    case MapType(k, v) => b.MapType? && EqualExpr(k, b.key) && EqualExpr(v, b.value)
    case Selector(_, s) => b.Selector? && EqualIdent(s, b.sel)
    case StructType(t) => b.StructType? && EqualFieldList(t, b.fields)
    case OtherExpr(_) => false
  }

  /**
   * `equalFieldList`: nil equals only nil; two lists are equal when they
   * have the same length and are equal slot by slot.
   */
  function EqualFieldList(a: FieldList, b: FieldList): (r: bool)
    ensures r ==> (a.NilList? <==> b.NilList?)
    ensures r && a.List? ==> |a.list| == |b.list|
    decreases a
  {
    match a
    case NilList => b.NilList?
    case List(x) =>
      b.List? && |x| == |b.list| && forall i :: 0 <= i < |x| ==> EqualField(x[i], b.list[i])
  }

  /** `equalField`: the type and the tag; the bound names are not looked at. */
  function EqualField(a: Field, b: Field): (r: bool)
    ensures r <==> EqualExpr(a.typ, b.typ) && a.tag == b.tag
    ensures r ==> SameHandledForm(a.typ, b.typ)
    decreases a
  {
    EqualExpr(a.typ, b.typ) && EqualBasicLit(a.tag, b.tag)
  }

  /** The three list comparisons of `equalFuncType`, on two present function types. */
  function EqualSignature(a: FuncType, b: FuncType): bool
    decreases a
  {
    EqualFieldList(a.typeParams, b.typeParams)
    && EqualFieldList(a.params, b.params)
    && EqualFieldList(a.results, b.results)
  }

  /** `equalFuncType`: nil equals only nil; otherwise type parameters, parameters and results. */
  function EqualFuncType(a: Option<FuncType>, b: Option<FuncType>): (r: bool)
    ensures a.None? || b.None? ==> (r <==> a == b)
    ensures a.Some? && b.Some? ==> (r <==> EqualSignature(a.value, b.value))
  {
    if a.None? && b.None? then true
    else if a.None? || b.None? then false
    else EqualSignature(a.value, b.value)
  }

  /**
   * The expression is built only from the handled forms, in every position
   * the equality looks at (an array's length and a selector's qualifier are
   * not looked at).
   */
  predicate Handled(e: Expr)
    decreases e
  {
    match e
    case IdentExpr(_) => true
    case Ellipsis(t) => Handled(t)
    case Star(t) => Handled(t)
    case ArrayType(_, t) => Handled(t)
    case FuncTypeExpr(t) => HandledSignature(t)
    case MapType(k, v) => Handled(k) && Handled(v)
    case Selector(_, _) => true
    case StructType(t) => HandledList(t)
    case OtherExpr(_) => false
  }

  predicate HandledList(l: FieldList)
    decreases l
  {
    match l
    case NilList => true
    case List(x) => forall i :: 0 <= i < |x| ==> HandledField(x[i])
  }

  predicate HandledField(f: Field)
    decreases f
  {
    Handled(f.typ)
  }

  predicate HandledSignature(t: FuncType)
    decreases t
  {
    HandledList(t.typeParams) && HandledList(t.params) && HandledList(t.results)
  }

  /** An expression is equal to itself exactly when it is built from the handled forms. */
  lemma {:induction false} ExprReflexive(e: Expr)
    ensures EqualExpr(e, e) <==> Handled(e)
    decreases e
  {
    match e
    case IdentExpr(_) =>
    case Ellipsis(t) => ExprReflexive(t);
    case Star(t) => ExprReflexive(t);
    case ArrayType(_, t) => ExprReflexive(t);
    case FuncTypeExpr(t) => SignatureReflexive(t);
    case MapType(k, v) => ExprReflexive(k); ExprReflexive(v);
    case Selector(_, _) =>
    case StructType(t) => ListReflexive(t);
    case OtherExpr(_) =>
  }

  lemma {:induction false} ListReflexive(l: FieldList)
    ensures EqualFieldList(l, l) <==> HandledList(l)
    decreases l
  {
    match l
    case NilList =>
    case List(x) =>
      forall i | 0 <= i < |x|
        ensures EqualField(x[i], x[i]) <==> HandledField(x[i])
      {
        FieldReflexive(x[i]);
      }
  }

  lemma {:induction false} FieldReflexive(f: Field)
    ensures EqualField(f, f) <==> HandledField(f)
    decreases f
  {
    ExprReflexive(f.typ);
  }

  lemma {:induction false} SignatureReflexive(t: FuncType)
    ensures EqualSignature(t, t) <==> HandledSignature(t)
    decreases t
  {
    ListReflexive(t.typeParams);
    ListReflexive(t.params);
    ListReflexive(t.results);
  }

  /** The equality is symmetric, although it dispatches on its first operand only. */
  lemma {:induction false} ExprSymmetric(a: Expr, b: Expr)
    ensures EqualExpr(a, b) == EqualExpr(b, a)
    decreases a
  {
    match a
    case IdentExpr(_) =>
    case Ellipsis(t) => if b.Ellipsis? { ExprSymmetric(t, b.elt); }
    case Star(t) => if b.Star? { ExprSymmetric(t, b.x); }
    case ArrayType(_, t) => if b.ArrayType? { ExprSymmetric(t, b.elt); }
    case FuncTypeExpr(t) => if b.FuncTypeExpr? { SignatureSymmetric(t, b.signature); }
    case MapType(k, v) => if b.MapType? { ExprSymmetric(k, b.key); ExprSymmetric(v, b.value); }
    case Selector(_, _) =>
    case StructType(t) => if b.StructType? { ListSymmetric(t, b.fields); }
    case OtherExpr(_) =>
  }

  lemma {:induction false} ListSymmetric(a: FieldList, b: FieldList)
    ensures EqualFieldList(a, b) == EqualFieldList(b, a)
    decreases a
  {
    match a
    case NilList =>
    case List(x) =>
      if b.List? && |x| == |b.list| {
        forall i | 0 <= i < |x|
          ensures EqualField(x[i], b.list[i]) == EqualField(b.list[i], x[i])
        {
          ExprSymmetric(x[i].typ, b.list[i].typ);
        }
      }
  }

  lemma {:induction false} SignatureSymmetric(a: FuncType, b: FuncType)
    ensures EqualSignature(a, b) == EqualSignature(b, a)
    decreases a
  {
    ListSymmetric(a.typeParams, b.typeParams);
    ListSymmetric(a.params, b.params);
    ListSymmetric(a.results, b.results);
  }

  /** The equality is transitive. */
  lemma {:induction false} ExprTransitive(a: Expr, b: Expr, c: Expr)
    requires EqualExpr(a, b) && EqualExpr(b, c)
    ensures EqualExpr(a, c)
    decreases a
  {
    match a
    case IdentExpr(_) =>
    case Ellipsis(t) => ExprTransitive(t, b.elt, c.elt);
    case Star(t) => ExprTransitive(t, b.x, c.x);
    case ArrayType(_, t) => ExprTransitive(t, b.elt, c.elt);
    case FuncTypeExpr(t) => SignatureTransitive(t, b.signature, c.signature);
    case MapType(k, v) => ExprTransitive(k, b.key, c.key); ExprTransitive(v, b.value, c.value);
    case Selector(_, _) =>
    case StructType(t) => ListTransitive(t, b.fields, c.fields);
  }

  lemma {:induction false} ListTransitive(a: FieldList, b: FieldList, c: FieldList)
    requires EqualFieldList(a, b) && EqualFieldList(b, c)
    ensures EqualFieldList(a, c)
    decreases a
  {
    match a
    case NilList =>
    case List(x) =>
      forall i | 0 <= i < |x|
        ensures EqualField(x[i], c.list[i])
      {
        assert EqualField(x[i], b.list[i]) && EqualField(b.list[i], c.list[i]);
        ExprTransitive(x[i].typ, b.list[i].typ, c.list[i].typ);
      }
  }

  lemma {:induction false} SignatureTransitive(a: FuncType, b: FuncType, c: FuncType)
    requires EqualSignature(a, b) && EqualSignature(b, c)
    ensures EqualSignature(a, c)
    decreases a
  {
    ListTransitive(a.typeParams, b.typeParams, c.typeParams);
    ListTransitive(a.params, b.params, c.params);
    ListTransitive(a.results, b.results, c.results);
  }

  /** Two equal expressions are both built from the handled forms. */
  lemma EqualImpliesHandled(a: Expr, b: Expr)
    requires EqualExpr(a, b)
    ensures Handled(a) && Handled(b)
  {
    ExprSymmetric(a, b);
    ExprTransitive(a, b, a);
    ExprTransitive(b, a, b);
    ExprReflexive(a);
    ExprReflexive(b);
  }

  /**
   * Renaming the parameters of a list (same slots, same types and tags,
   * other names) keeps the list equal to the original.
   */
  lemma RenamedListEqual(x: seq<Field>, y: seq<Field>)
    requires HandledList(List(x))
    requires |x| == |y|
    requires forall i :: 0 <= i < |x| ==> x[i].typ == y[i].typ && x[i].tag == y[i].tag
    ensures EqualFieldList(List(x), List(y))
  {
    forall i | 0 <= i < |x|
      ensures EqualField(x[i], y[i])
    {
      FieldReflexive(x[i]);
    }
  }

  /** nil and an empty list are different field lists. */
  lemma NilIsNotEmpty()
    ensures !EqualFieldList(NilList, List([])) && !EqualFieldList(List([]), NilList)
  {
  }

  /** A different number of slots, in any of the three lists, breaks signature equality. */
  lemma ArityBreaksSignature(a: FuncType, b: FuncType)
    requires a.typeParams.List? && b.typeParams.List? && a.params.List? && b.params.List?
    requires a.results.List? && b.results.List?
    requires |a.typeParams.list| != |b.typeParams.list| || |a.params.list| != |b.params.list|
          || |a.results.list| != |b.results.list|
    ensures !EqualSignature(a, b)
  {
  }

  /** An array type's length is not compared, only its element type. */
  lemma ArrayLengthIgnored(n: Option<Expr>, m: Option<Expr>, e: Expr, f: Expr)
    ensures EqualExpr(ArrayType(n, e), ArrayType(m, f)) == EqualExpr(e, f)
  {
  }

  /** A selector's qualifier is not compared, only the selected identifier. */
  lemma SelectorQualifierIgnored(x: Expr, y: Expr, s: Ident, t: Ident)
    ensures EqualExpr(Selector(x, s), Selector(y, t)) == (s == t)
  {
  }

  /** A map type compares both the key and the value type. */
  lemma MapComparesKeyAndValue(k: Expr, v: Expr, k': Expr, v': Expr)
    ensures EqualExpr(MapType(k, v), MapType(k', v')) == (EqualExpr(k, k') && EqualExpr(v, v'))
  {
  }

  /**
   * `func Foo[A any]() A` against `func Foo[A, B any]() (A, B)`: the type
   * parameter lists are equal (one slot typed `any` each; names are not
   * compared), but the result lists differ in length.
   */
  lemma GenericArityExample()
    ensures var a := Ident("A", Some(Object(Typ, "A")));
            var b := Ident("B", Some(Object(Typ, "B")));
            var any := IdentExpr(Ident("any", None));
            var one := FuncType(List([Field([a], any, None)]), List([]), List([Field([], IdentExpr(a), None)]));
            var two := FuncType(List([Field([a, b], any, None)]), List([]),
                                List([Field([], IdentExpr(a), None), Field([], IdentExpr(b), None)]));
            EqualFieldList(one.typeParams, two.typeParams) && !EqualSignature(one, two)
  {
  }
}
