/**
 * The slice of Go's syntax trees (package go/ast) that the comparison engine
 * inspects. Pointers that may be nil are `Option`s, or `NilList` for a
 * `*ast.FieldList`; source positions, comments and function bodies are not
 * represented. The parser that builds these trees is not part of this model.
 */
module GoSyntax {
  import opened Wrappers

  /** The kinds of `ast.Object` a resolved identifier may be bound to. */
  datatype ObjKind = Bad | Pkg | Con | Typ | Var | Fun | Lbl

  /** `ast.Object`, reduced to the two fields that equality looks at. */
  datatype Object = Object(kind: ObjKind, name: string)

  /** `ast.Ident`: a spelling and the object the parser bound it to, if any. */
  datatype Ident = Ident(name: string, obj: Option<Object>)

  /** The token kinds of `ast.BasicLit`. */
  datatype LitKind = IntToken | FloatToken | ImagToken | CharToken | StringToken

  datatype BasicLit = BasicLit(kind: LitKind, value: string)

  /**
   * `ast.Expr` in the forms the structural equality dispatches on. Every
   * other node form (channel and interface types, calls, literals, ...) is
   * an `OtherExpr`, named by its Go node type.
   */
  datatype Expr =
    | IdentExpr(ident: Ident)
    | Ellipsis(elt: Expr)
    | Star(x: Expr)
    | ArrayType(len: Option<Expr>, elt: Expr)
    | FuncTypeExpr(signature: FuncType)
    | MapType(key: Expr, value: Expr)
    | Selector(x: Expr, sel: Ident)
    | StructType(fields: FieldList)
    | OtherExpr(form: string)

  /** `ast.Field`: bound names (possibly none), a type and an optional tag. */
  datatype Field = Field(names: seq<Ident>, typ: Expr, tag: Option<BasicLit>)

  /** A `*ast.FieldList`: nil, or a list of fields (which may be empty). */
  datatype FieldList = NilList | List(list: seq<Field>)

  /** `ast.FuncType`: type parameters, parameters and results. */
  datatype FuncType = FuncType(typeParams: FieldList, params: FieldList, results: FieldList)

  /** `ast.FuncDecl` without its documentation and body. */
  datatype FuncDecl = FuncDecl(recv: FieldList, name: Ident, typ: FuncType)

  /** `ast.TypeSpec`. */
  datatype TypeSpec = TypeSpec(name: Ident, typeParams: FieldList, assign: bool, typ: Expr)

  /** `ast.ValueSpec`: one line of a const or var declaration. */
  datatype ValueSpec = ValueSpec(names: seq<Ident>, typ: Option<Expr>, values: seq<Expr>)

  /** What a node of the syntax tree is, as far as the declaration extractors care. */
  datatype NodeKind =
    | FuncDeclNode(funcDecl: FuncDecl)
    | TypeSpecNode(typeSpec: TypeSpec)
    | ValueSpecNode(valueSpec: ValueSpec)
    | PackageNode(packageName: string)
    | OtherNode

  /** A syntax tree: a node and its children in the order `ast.Inspect` visits them. */
  datatype Node = Node(kind: NodeKind, children: seq<Node>)

  /**
   * Collaborators whose code is not part of the model, passed in as values:
   * `ast.IsExported`; the `fmt.Sprint` comparison of expressions used by the
   * older generations (its output depends on node addresses and positions);
   * and `equalTypeSpec`, `equalNames`, `equalValueSpec`, which the newest
   * generation calls but whose bodies are not available.
   */
  datatype Env = Env(
    exported: string -> bool,
    sprintEqual: (Expr, Expr) -> bool,
    equalTypeSpec: (TypeSpec, TypeSpec) -> bool,
    equalNames: (seq<Ident>, seq<Ident>) -> bool,
    equalValueSpec: (ValueSpec, ValueSpec) -> bool)
}
