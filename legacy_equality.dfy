/**
 * The equality helpers that internal/ast/ast.go and pkg/ast/ast.go both
 * define, in the same words: identifiers compare by spelling only, and
 * type expressions by the text `fmt.Sprint` prints for them, which is the
 * `sprintEqual` collaborator here. Field lists, fields and function types
 * are compared as in equality.go otherwise.
 */
module LegacyEquality {
  import opened Wrappers
  import opened GoSyntax
  import Equality

  /** `equalIdent` of the older generations: the spelling only. */
  function EqualIdent(a: Ident, b: Ident): (r: bool)
    ensures r <==> a.name == b.name
  {
    a.name == b.name
  }

  /** `equalField`: the printed type and the tag; the bound names are not looked at. */
  function EqualField(env: Env, a: Field, b: Field): (r: bool)
    ensures r <==> env.sprintEqual(a.typ, b.typ) && a.tag == b.tag
  {
    env.sprintEqual(a.typ, b.typ) && Equality.EqualBasicLit(a.tag, b.tag)
  }

  /** `equalFieldList`: nil equals only nil; otherwise same length and equal slot by slot. */
  function EqualFieldList(env: Env, a: FieldList, b: FieldList): (r: bool)
    ensures r ==> (a.NilList? <==> b.NilList?)
    ensures r && a.List? ==> |a.list| == |b.list|
  {
    match a
    case NilList => b.NilList?
    case List(x) => b.List? && |x| == |b.list| && forall i :: 0 <= i < |x| ==> EqualField(env, x[i], b.list[i])
  }

  /** `equalFuncType`: nil equals only nil; otherwise the three lists. */
  function EqualFuncType(env: Env, a: Option<FuncType>, b: Option<FuncType>): (r: bool)
    ensures a.None? || b.None? ==> (r <==> a == b)
  {
    if a.None? && b.None? then true
    else if a.None? || b.None? then false
    else EqualFieldList(env, a.value.typeParams, b.value.typeParams)
         && EqualFieldList(env, a.value.params, b.value.params)
         && EqualFieldList(env, a.value.results, b.value.results)
  }

  /** Identifiers equal in the newest generation are equal here: the bound object is no longer checked. */
  lemma IdentWeaker(a: Ident, b: Ident)
    ensures Equality.EqualIdent(a, b) ==> EqualIdent(a, b)
    ensures EqualIdent(Ident(a.name, None), Ident(a.name, Some(Object(Var, a.name))))
    ensures !Equality.EqualIdent(Ident(a.name, None), Ident(a.name, Some(Object(Var, a.name))))
  {
  }

  /**
   * When printing agrees with the structural comparison, the older list
   * and function-type equalities are the newest generation's.
   */
  lemma AgreesWithStructural(env: Env, a: Option<FuncType>, b: Option<FuncType>)
    requires forall x: Expr, y: Expr :: env.sprintEqual(x, y) == Equality.EqualExpr(x, y)
    ensures EqualFuncType(env, a, b) == Equality.EqualFuncType(a, b)
  {
    if a.Some? && b.Some? {
      ListAgrees(env, a.value.typeParams, b.value.typeParams);
      ListAgrees(env, a.value.params, b.value.params);
      ListAgrees(env, a.value.results, b.value.results);
    }
  }

  lemma ListAgrees(env: Env, a: FieldList, b: FieldList)
    requires forall x: Expr, y: Expr :: env.sprintEqual(x, y) == Equality.EqualExpr(x, y)
    ensures EqualFieldList(env, a, b) == Equality.EqualFieldList(a, b)
  {
    if a.List? && b.List? && |a.list| == |b.list| {
      assert forall i :: 0 <= i < |a.list| ==> EqualField(env, a.list[i], b.list[i]) == Equality.EqualField(a.list[i], b.list[i]);
    }
  }

  /** With a reflexive printing comparison every function type equals itself. */
  lemma FuncTypeReflexive(env: Env, t: Option<FuncType>)
    requires forall x: Expr :: env.sprintEqual(x, x)
    ensures EqualFuncType(env, t, t)
  {
    if t.Some? {
      ListReflexive(env, t.value.typeParams);
      ListReflexive(env, t.value.params);
      ListReflexive(env, t.value.results);
    }
  }

  lemma ListReflexive(env: Env, l: FieldList)
    requires forall x: Expr :: env.sprintEqual(x, x)
    ensures EqualFieldList(env, l, l)
  {
    if l.List? {
      assert forall i :: 0 <= i < |l.list| ==> EqualField(env, l.list[i], l.list[i]);
    }
  }
}
