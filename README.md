# semver: comparing two Go API snapshots

This project models the comparison engine of `quartercastle/semver` in Dafny.
The engine looks at two parsed snapshots of a Go package, `previous` and
`latest`, and classifies the change between them as PATCH, MINOR or MAJOR
(with NONE below them). A small in-memory cache of checked-out repositories
is modelled alongside it.

The repository holds three generations of the engine, and each one is its own
Dafny module here:

- **The newest generation** lives in `internal/ast/*.go` other than `ast.go`.
  - A `Diff` is an ordered list of `Change`s (`Diffs`). Its `Type()` is the
    largest severity, with Patch as the floor.
  - Type expressions are compared structurally over a closed set of forms
    (`Equality`); any other form is unequal.
  - Four per-kind differs cover functions, type specs, value specs (with the
    `const.go` variant) and package presence: `Funcs`, `TypeSpecs`,
    `ValueSpecs`, `Consts` and `Packages`.
  - Each differ extracts the exported declarations of both trees (`Inspect`,
    `GoSyntax`). It then fills a table of (previous, latest) slots with a
    greedy nested-loop matcher (`Matching`). Last, it concatenates one
    per-slot rule's changes in slot order (`Differ`).
  - The two matcher variants differ in whether they `break` after the first
    match, and in their key.
  - `Engine` composes the differs.
- **`internal/ast/ast.go`** is the middle generation (`LegacyAst`).
  - Its `Diff` is a map keyed by `*Change`, mutated in place by `Set` and
    `Merge`. It is a class holding a set of `Entry` objects, one fresh object
    per stored change.
  - Its loops are methods proved against specification functions over
    sequences of changes (`DeclChanges`, `RowChanges`, `GridChanges`,
    `FuncsChanges`, `CompareChanges`). A ghost out-sequence of entries ties
    the stored map to those functions.
- **`pkg/ast/ast.go`** is the oldest generation (`PkgAst`). It folds a single
  severity with `set` (the maximum), and its function comparison is driven
  by the number of exported functions.
- **Shared between the two older generations** is the equality code, which
  they spell out in the same words (`LegacyEquality`). Identifiers compare by
  spelling only. Expressions compare by the text `fmt.Sprint` prints.
- **`Generations`** relates the two older generations. The middle one stores
  exactly the changes whose severity is the oldest one's result.
- **`Cache`** models `internal/cache/cache.go`. The package variables `dir`
  and `cache` are the fields of a `Cache` object. Each path maps to a `Repo`
  object whose reference set `Add` updates in place.

Collaborators whose code is not part of this model are supplied as
parameters. They are the functions of the `Env` datatype:

| collaborator | stands for |
|---|---|
| `exported` | `ast.IsExported` |
| `sprintEqual` | `fmt.Sprint` equality of the older generations |
| `equalTypeSpec`, `equalNames`, `equalValueSpec` | functions that are called but not shown |

The cache has its own collaborators:

- `hash` (the SHA-1 hex digest) and `join` (`filepath.Join`) are constructor
  arguments.
- `mkdirOk`, `repoDirOk`, `refDirOk` and `removeOk` are the outcomes of the
  file-system calls, passed in as booleans.
- Every error the operating system returns is collapsed into `OsError`.

Presence is `Option`: a nil interface and a typed nil pointer are both `None`.

Three behaviours the model keeps exactly as the code has them:

- internal/ast/ast.go:243-255 labels a missing previous snapshot as a Major
  "removal of package", and a missing latest one as a Minor "addition of
  package".
- In `Add` at internal/cache/cache.go:70-75, a failing mkdir of the repository
  directory returns before the reference is recorded. Only the path stays in
  the table.
- A matcher variant with `break` still overwrites a slot that an earlier
  latest declaration already filled.

## Model

| member | source | states |
|---|---|---|
| Severity.Max | pkg/ast/ast.go:177-182 | `set`: the result bounds both arguments and is one of them |
| Severity.Name | internal/ast/ast.go:53-64 | `String()`: always one of the four names NONE, PATCH, MINOR, MAJOR |
| Severity.NameInjective | internal/ast/ast.go:57-64 | different severities print different names |
| Severity.RankInjective | internal/ast/ast.go:66-71 | the `iota` rank identifies the severity |
| Severity.ScaleOrder | internal/ast/ast.go:66-71 | None < Patch < Minor < Major, so None is the bottom and Major the top |
| Severity.MaxCommutative | pkg/ast/ast.go:177-182 | the order of `set`'s arguments does not matter |
| Severity.MaxAssociative | pkg/ast/ast.go:177-182 | folding with `set` does not depend on grouping |
| Severity.MaxBounds | pkg/ast/ast.go:177-182 | Major absorbs every severity under `set`, and None is its identity |
| Diffs.Add | internal/ast/diff.go:13-18 | a nil diff acts as empty; the result is the old changes followed by the new ones, in order |
| Diffs.Merge | internal/ast/diff.go:20-25 | the length adds up; `d`'s changes come first, then `q`'s, order kept |
| Diffs.TypeOf | internal/ast/diff.go:27-35 | the least severity that is at least Patch and at least every change's, and is Patch or some change's |
| Diffs.DiffType | internal/ast/diff.go:27-35 | the maximum-tracking loop computes that least upper bound |
| Diffs.EmptyIsPatch | internal/ast/diff.go:28 | an empty diff reports Patch, never None |
| Diffs.NoneNeverLowers | internal/ast/diff.go:28-34 | changes typed None leave the aggregate at Patch |
| Diffs.TypeOfMerge | internal/ast/diff.go:20-35 | the severity of a merge is the larger of the two severities |
| Diffs.MergeOrderIrrelevant | internal/ast/diff.go:20-35 | merge order never changes the aggregate severity |
| Diffs.MergeMonoid | internal/ast/diff.go:20-25 | merge is associative with the empty diff as identity on both sides |
| Diffs.AddMajor | internal/ast/diff.go:13-35 | adding one Major change makes the diff Major whatever else it holds |
| Diffs.MemberBound | internal/ast/diff.go:27-35 | every change bounds the diff's severity; one Major change makes it Major |
| Diffs.ConcatMapAtMostOne | internal/ast/func.go:108-111 | a merge loop whose steps add at most one change each yields no more changes than steps |
| Diffs.ConcatMapContains | internal/ast/func.go:108-111 | every change a step contributes is in the merged diff |
| Diffs.ConcatMapEmpty | internal/ast/func.go:108-111 | steps that contribute nothing merge to the empty diff |
| Diffs.ConcatMapSource | internal/ast/func.go:108-111 | every change of the merged diff comes from some step |
| Equality.EqualObject | internal/ast/equality.go:74-84 | both absent, or both present with the same kind and name |
| Equality.EqualIdent | internal/ast/equality.go:8-14 | same spelling and equal bound objects |
| Equality.EqualBasicLit | internal/ast/equality.go:62-72 | both absent, or the same token kind and text |
| Equality.EqualExpr | internal/ast/equality.go:86-124 | equal expressions are built by the same one of the eight handled forms |
| Equality.EqualFieldList | internal/ast/equality.go:40-60 | nil equals only nil; equal lists have equal lengths |
| Equality.EqualField | internal/ast/equality.go:126-150 | fields are equal exactly when their types are equal and their tags are the same literal; the bound names are not looked at, and equal fields have types of one handled form |
| Equality.EqualFuncType | internal/ast/equality.go:16-38 | nil equals only nil; two present types are equal exactly when their type parameters, parameters and results are |
| Equality.ExprReflexive | internal/ast/equality.go:86-124 | an expression equals itself exactly when it is built from the handled forms |
| Equality.ListReflexive | internal/ast/equality.go:40-60 | a field list equals itself exactly when its fields use the handled forms |
| Equality.FieldReflexive | internal/ast/equality.go:126-150 | a field equals itself exactly when its type uses the handled forms |
| Equality.SignatureReflexive | internal/ast/equality.go:16-38 | a signature equals itself exactly when its three lists use the handled forms |
| Equality.ExprSymmetric | internal/ast/equality.go:86-124 | expression equality is symmetric, although it dispatches on its first operand |
| Equality.ListSymmetric | internal/ast/equality.go:40-60 | field-list equality is symmetric |
| Equality.SignatureSymmetric | internal/ast/equality.go:16-38 | signature equality is symmetric |
| Equality.ExprTransitive | internal/ast/equality.go:86-124 | expression equality is transitive |
| Equality.ListTransitive | internal/ast/equality.go:40-60 | field-list equality is transitive |
| Equality.SignatureTransitive | internal/ast/equality.go:16-38 | signature equality is transitive |
| Equality.EqualImpliesHandled | internal/ast/equality.go:120-123 | an expression outside the handled forms equals nothing |
| Equality.RenamedListEqual | internal/ast/equality.go:126-150 | renaming the parameters of a list keeps it equal |
| Equality.NilIsNotEmpty | internal/ast/equality.go:41-47 | a nil list and an empty list are unequal, both ways round |
| Equality.ArityBreaksSignature | internal/ast/equality.go:16-38 | a different number of type parameters, parameters or results breaks signature equality |
| Equality.ArrayLengthIgnored | internal/ast/equality.go:100-103 | array types compare only their element types |
| Equality.SelectorQualifierIgnored | internal/ast/equality.go:112-115 | selectors compare only the selected identifier |
| Equality.MapComparesKeyAndValue | internal/ast/equality.go:108-111 | map types compare key and value types |
| Equality.GenericArityExample | internal/ast/equality.go:16-38 | `func Foo[A any]() A` and `func Foo[A, B any]() (A, B)` are unequal by their results |
| Inspect.Visit | internal/ast/type-spec.go:14-24 | the walk starts at the node, and a node the closure refuses contributes only itself |
| Inspect.VisitChildrenAppend | internal/ast/func.go:12-21 | the walk over one more child is the old walk followed by the new subtree's |
| Inspect.VisitAppendChild | internal/ast/func.go:12-21 | a node with one more child walks its old children, then the new subtree |
| Inspect.Picked | internal/ast/func.go:12-21 | an extractor keeps at most one value per visited node |
| Inspect.Collect | internal/ast/func.go:5-23 | the appending closure returns exactly the values picked along the walk, and nil for a nil node |
| Inspect.PickedMember | internal/ast/func.go:12-21 | a value is extracted exactly when some visited node yields it |
| Inspect.PickedAppend | internal/ast/func.go:12-21 | extraction keeps the walk order across concatenated walks |
| Inspect.Pruned | internal/ast/type-spec.go:17-19 | a node the closure answers false for hides its subtree |
| Matching.Initial | internal/ast/func.go:83-87 | one slot per previous declaration, in order, with no latest entry |
| Matching.Scan | internal/ast/func.go:91-102 | the inner loop keeps the table's length |
| Matching.BuildTable | internal/ast/func.go:83-106 | the nested loops fill the table that `Table` specifies |
| Matching.ScanEffect | internal/ast/func.go:91-102 | a scan writes `l` into exactly the slots it claims and reports whether any matched |
| Matching.TableShape | internal/ast/func.go:83-106 | slot i holds previous i and the last latest declaration that claims it; then one addition slot per unmatched latest declaration, in order |
| Matching.TableOccupied | internal/ast/func.go:83-106 | every slot holds at least one declaration |
| Matching.LastClaimNone | internal/ast/func.go:91-102 | a previous slot stays without a latest entry exactly when nothing claims it |
| Matching.LastClaimSome | internal/ast/func.go:91-102 | the last claiming latest declaration is the one the slot ends up holding |
| Matching.UnmatchedNone | internal/ast/func.go:103-105 | when every latest declaration matches, no addition slot is made |
| Matching.UnmatchedMember | internal/ast/func.go:103-105 | a latest declaration that matches nothing gets an addition slot |
| Matching.UnmatchedSound | internal/ast/func.go:103-105 | every addition slot holds a latest declaration that matches nothing |
| Matching.DuplicateOverwrites | internal/ast/type-spec.go:70-82 | with or without `break`, a later declaration with the same key overwrites an earlier one, which is lost |
| Matching.BreakFillsFirstOnly | internal/ast/type-spec.go:77-81 | without `break` every matching slot is filled, with `break` only the first |
| Differ.MergeSlots | internal/ast/func.go:108-111 | the merge loop computes the ordered concatenation of the per-slot diffs |
| Differ.Compare | internal/ast/func.go:79-114 | building the table and merging is the specified outcome |
| Differ.AdditionContributes | internal/ast/func.go:103-105 | an unmatched latest declaration contributes its addition changes |
| Differ.RemovalContributes | internal/ast/func.go:85-87 | an unclaimed previous declaration contributes its removal changes |
| Differ.PairContributes | internal/ast/func.go:108-111 | each previous declaration contributes its rule's changes for its last claimant |
| Differ.AtMostOnePerSlot | internal/ast/func.go:108-113 | a rule with at most one change per slot bounds the diff by previous plus unmatched count |
| Differ.SelfPairs | internal/ast/func.go:83-106 | comparing a list with itself under unique keys pairs each declaration with itself and adds nothing |
| Differ.SelfOutcome | internal/ast/func.go:79-114 | then a rule silent on identical pairs gives the empty diff |
| Funcs.ExtractFuncs | internal/ast/func.go:5-23 | the loop returns the functions the walk yields |
| Funcs.FuncsExactly | internal/ast/func.go:12-21 | a function is extracted exactly when it is in the tree and its name is exported |
| Funcs.FuncsInOrder | internal/ast/func.go:12-21 | extraction keeps the walk order |
| Funcs.CompareFuncDecl | internal/ast/func.go:25-77 | at most one change, pointing at the slot's pair: Minor added; Major removed unless a receiver type is unexported; Major "signature has changed" exactly when the signatures differ |
| Funcs.CompareFuncs | internal/ast/func.go:79-114 | the differ's result is the matcher outcome under the name-and-receiver key without `break` |
| Funcs.AtMostOneChangePerSlot | internal/ast/func.go:108-113 | no more changes than slots |
| Funcs.FunctionAdded | internal/ast/func.go:28-35 | an unmatched latest function is reported added, so the diff is at least Minor |
| Funcs.FunctionRemoved | internal/ast/func.go:37-63 | an unmatched previous function with exported receivers is reported removed, so the diff is Major |
| Funcs.SignatureChanged | internal/ast/func.go:66-74 | a slot whose last claimant has another signature is reported, so the diff is Major |
| Funcs.SelfDiffIsPatch | internal/ast/func.go:79-114 | a snapshot with unique keys and handled signatures compared with itself gives the empty diff |
| Funcs.ReceiverNamesIgnored | internal/ast/func.go:98 | receiver variable names are not part of the key |
| Funcs.ReceiverName | internal/ast/func.go:43-51 | the receiver's type name: the identifier of `T` or of `*T`, and the empty name for any other receiver type |
| Funcs.InternalReceiver | internal/ast/func.go:40-57 | a plain function never has an internal receiver; with one receiver it is internal exactly when its type name is unexported; an internal receiver list holds an unexported type name |
| Funcs.Key | internal/ast/func.go:98 | matched functions have the same name, and a method never matches a plain function |
| TypeSpecs.ExtractTypeSpec | internal/ast/type-spec.go:7-26 | the loop returns the type specs the pruning walk yields |
| TypeSpecs.Descend | internal/ast/type-spec.go:14-24 | the walk descends into every node except a type spec with an unexported name |
| TypeSpecs.TypeSpecsExported | internal/ast/type-spec.go:14-24 | a spec is extracted exactly when the walk reaches it and its name is exported |
| TypeSpecs.UnexportedPruned | internal/ast/type-spec.go:17-19 | nothing below an unexported type spec is extracted |
| TypeSpecs.DiffTypeSpec | internal/ast/type-spec.go:28-56 | at most one change: Minor added, Major removed, Major changed exactly when `equalTypeSpec` fails |
| TypeSpecs.CompareTypeSpec | internal/ast/type-spec.go:58-95 | the differ's result is the matcher outcome keyed by name, with `break` |
| TypeSpecs.AtMostOneChangePerSlot | internal/ast/type-spec.go:89-94 | no more changes than slots |
| TypeSpecs.TypeAdded | internal/ast/type-spec.go:30-36 | a type whose name is new is reported added, so the diff is at least Minor |
| TypeSpecs.TypeRemoved | internal/ast/type-spec.go:38-44 | a type whose name is gone is reported removed, so the diff is Major |
| TypeSpecs.TypeChanged | internal/ast/type-spec.go:46-55 | a claimed slot failing `equalTypeSpec` is reported, so the diff is Major |
| TypeSpecs.SelfDiffIsPatch | internal/ast/type-spec.go:58-95 | a snapshot with unique names compared with itself gives the empty diff |
| TypeSpecs.Key | internal/ast/type-spec.go:77 | two type specs match exactly when their name identifiers are equal |
| ValueSpecs.ExtractValueSpec | internal/ast/value-spec.go:7-28 | the loop returns the value specs the pruning walk yields |
| ValueSpecs.Descend | internal/ast/value-spec.go:14-26 | the walk descends into every node except a value spec with some unexported name |
| ValueSpecs.ValueSpecsExported | internal/ast/value-spec.go:14-26 | a spec is extracted exactly when the walk reaches it and all its names are exported |
| ValueSpecs.UnexportedPruned | internal/ast/value-spec.go:17-21 | one unexported name keeps the spec and its subtree out |
| ValueSpecs.DiffValueSpec | internal/ast/value-spec.go:30-58 | at most one change: Minor added, Major removed, Major changed exactly when `equalValueSpec` fails |
| ValueSpecs.CompareValueSpec | internal/ast/value-spec.go:60-97 | the differ's result is the matcher outcome keyed by `equalNames`, with `break` |
| ValueSpecs.AtMostOneChangePerSlot | internal/ast/value-spec.go:91-96 | no more changes than slots |
| ValueSpecs.ValueAdded | internal/ast/value-spec.go:32-38 | a spec whose names are new is reported added, so the diff is at least Minor |
| ValueSpecs.ValueRemoved | internal/ast/value-spec.go:40-46 | a spec whose names are gone is reported removed, so the diff is Major |
| ValueSpecs.ValueChanged | internal/ast/value-spec.go:48-57 | a claimed slot failing `equalValueSpec` is reported, so the diff is Major |
| ValueSpecs.SelfDiffIsPatch | internal/ast/value-spec.go:60-97 | a snapshot with unique names compared with itself gives the empty diff |
| ValueSpecs.Key | internal/ast/value-spec.go:79 | two value specs match exactly when `equalNames` holds for their name lists; values and types are not looked at |
| Consts.CompareValueSpec | internal/ast/const.go:30-49 | a change exactly when one side is absent: Minor constant added or Major constant removed |
| Consts.CompareConsts | internal/ast/const.go:51-87 | the differ's result is the matcher outcome keyed by whole-spec equality, without `break` |
| Consts.Key | internal/ast/const.go:70 | two const specs match exactly when `equalValueSpec` holds for the whole specs |
| Consts.OnlyAdditionsAndRemovals | internal/ast/const.go:30-49 | every change is a constant addition or removal |
| Consts.UnmatchedConstIsMajor | internal/ast/const.go:40-46 | a previous constant with no equal latest one is removed, so the diff is Major |
| Consts.UnmatchedConstIsAdded | internal/ast/const.go:76-78 | a latest constant with no equal previous one is reported added |
| Consts.ChangeIsRemovalPlusAddition | internal/ast/const.go:61-84 | a changed constant shows as one removal then one addition |
| Consts.NoBreakFillsEverySlot | internal/ast/const.go:63-74 | one latest constant equal to two previous ones fills both slots, so nothing is reported |
| Packages.ComparePackage | internal/ast/package.go:9-31 | at most one change, exactly when a package appears or disappears: Major "removal of package <name>" or Minor "addition of package <name>" |
| Packages.PresenceSeverity | internal/ast/package.go:9-31 | removal is Major, addition Minor, and keeping the package Patch |
| Engine.Compare | internal/ast/ast.go:236-260 | this model's assumed composition (see Left out for where it departs from these lines): two absent snapshots give nothing, otherwise the four differs' diffs merged in order |
| Engine.BothAbsentIsPatch | internal/ast/ast.go:239-241 | two absent snapshots give the empty diff, a Patch |
| Engine.SeverityIsMaxOfDiffers | internal/ast/ast.go:227-234 | the result's severity is the largest of the differs' severities |
| Engine.RemovedFunctionIsMajor | internal/ast/func.go:59-63 | one removed exported function makes the whole comparison Major |
| Engine.SelfCompareIsPatch | internal/ast/ast.go:236-260 | a package compared with itself is a Patch under each differ's self-comparison conditions |
| Engine.UnhandledSelfCompareIsMajor | internal/ast/equality.go:120-123 | an exported function whose signature uses a form `equalExpr` does not handle makes its package Major against itself |
| Engine.ChanParameterSelfCompareIsMajor | internal/ast/func.go:66-74 | the package holding only `func F(c chan int)` is Major against itself |
| LegacyEquality.EqualIdent | internal/ast/ast.go:93-95 | identifiers compare by spelling only |
| LegacyEquality.EqualFieldList | internal/ast/ast.go:121-141 | nil equals only nil; equal lists have equal lengths |
| LegacyEquality.EqualField | internal/ast/ast.go:159-179 | fields are equal exactly when their types print the same and their tags are the same literal; the bound names are not looked at |
| LegacyEquality.EqualFuncType | internal/ast/ast.go:97-119 | nil equals only nil |
| LegacyEquality.IdentWeaker | pkg/ast/ast.go:47-49 | newer-equal identifiers are equal here, and an unbound and a bound identifier of one name are equal only here |
| LegacyEquality.AgreesWithStructural | internal/ast/ast.go:155-157 | when printing agrees with structural equality, the older function-type equality is the newest one |
| LegacyEquality.ListAgrees | pkg/ast/ast.go:75-95 | the same for field lists |
| LegacyEquality.FuncTypeReflexive | pkg/ast/ast.go:51-73 | with a reflexive printing comparison, every function type equals itself |
| LegacyEquality.ListReflexive | pkg/ast/ast.go:75-95 | the same for field lists |
| PkgAst.CompareFuncDecl | pkg/ast/ast.go:135-147 | Major exactly for the same name and another signature, None otherwise |
| PkgAst.RowValue | pkg/ast/ast.go:165-168 | a row is Major exactly when some previous function breaks against it, else its start value |
| PkgAst.GridValue | pkg/ast/ast.go:158-170 | from Patch the rows give Major exactly when some same-named pair changed signature, else Patch |
| PkgAst.CompareFuncs | pkg/ast/ast.go:149-173 | the nested loops compute the count-driven result `FuncsDifference` |
| PkgAst.Compose | pkg/ast/ast.go:184-192 | the fold bounds every comparator result and is None or one of them |
| PkgAst.Compare | pkg/ast/ast.go:194-198 | `Compare` is `compareFuncs` |
| PkgAst.AtLeastPatch | pkg/ast/ast.go:151 | the result is never None |
| PkgAst.FewerIsMajor | pkg/ast/ast.go:153-156 | fewer exported functions in latest is Major |
| PkgAst.NoPreviousIsPatch | pkg/ast/ast.go:158-170 | no exported functions in previous is Patch, whatever latest holds |
| PkgAst.MoreIsMinorOrMajor | pkg/ast/ast.go:158-164 | more functions in latest is Major when a compared signature broke, else Minor |
| PkgAst.SameCountIsPatchOrMajor | pkg/ast/ast.go:158-170 | as many functions on both sides is Major when any same-named pair broke, else Patch |
| PkgAst.SelfIsPatch | pkg/ast/ast.go:149-173 | a package with unique function names compared with itself is Patch |
| PkgAst.UnexportedInvisible | pkg/ast/ast.go:32-45 | an added unexported function changes neither the extraction nor the result |
| LegacyAst.Entry.constructor | internal/ast/ast.go:27 | the stored pointer holds the change |
| LegacyAst.Diff.constructor | internal/ast/ast.go:237 | a new map is empty |
| LegacyAst.Diff.Type | internal/ast/ast.go:41-49 | the loop returns the least bound that is at least Patch and every entry's severity |
| LegacyAst.Diff.Absorb | internal/ast/ast.go:35-37 | the copy loop adds exactly the given entries |
| LegacyAst.Set | internal/ast/ast.go:23-29 | a nil map becomes a new one; the change is stored under a fresh pointer, so the map grows by exactly one |
| LegacyAst.Merge | internal/ast/ast.go:31-39 | the receiver (or a new map) ends with its entries plus `q`'s and is returned |
| LegacyAst.DeclChanges | internal/ast/ast.go:181-196 | at most one change, Major "signature has changed", exactly for the same name and another signature |
| LegacyAst.CompareFuncDecl | internal/ast/ast.go:181-196 | stores fresh entries for exactly those changes into `diff` and returns it |
| LegacyAst.CompareRow | internal/ast/ast.go:209-219 | the inner loop stores the row's changes into the shared map |
| LegacyAst.CompareFuncs | internal/ast/ast.go:198-223 | stores exactly: one Major removal when latest is shorter; otherwise the rows of the first `len(previous)` latest functions, then a Minor addition when latest is longer |
| LegacyAst.CompareRows | internal/ast/ast.go:208-220 | the nested loops store that sequence when latest is not shorter |
| LegacyAst.Compose | internal/ast/ast.go:227-234 | merging the single comparator's result into its own map stores just that result |
| LegacyAst.Compare | internal/ast/ast.go:236-260 | a fresh map holding exactly the presence change or the function changes |
| LegacyAst.TypeOfRecords | internal/ast/ast.go:41-49 | the map's `Type()` is the severity of the changes it records |
| LegacyAst.BothAbsentIsPatch | internal/ast/ast.go:239-241 | two absent snapshots store nothing and are a Patch |
| LegacyAst.PresenceLabels | internal/ast/ast.go:243-255 | the presence labels exactly as written |
| LegacyAst.FewerIsOneRemoval | internal/ast/ast.go:201-206 | a shorter latest list stores only the Major removal |
| LegacyAst.MoreEndsWithAddition | internal/ast/ast.go:210-216 | a longer latest list ends with the Minor addition |
| Generations.RowMember | internal/ast/ast.go:209-219 | a row stores the signature change exactly when some previous function breaks against it |
| Generations.GridMember | internal/ast/ast.go:208-220 | the rows store only signature changes, and one exactly when the oldest generation sees a broken pair |
| Generations.BrokenSplit | pkg/ast/ast.go:158-170 | a same-named pair changed signature exactly when it did in all latest functions but the last, or against the last one |
| Generations.OnlyMajors | internal/ast/ast.go:41-49 | a diff of signature changes is Major when non-empty and Patch when empty |
| Generations.GridSeverity | pkg/ast/ast.go:165-168 | the rows' severity is the oldest generation's row fold |
| Generations.AgreesWithPkg | pkg/ast/ast.go:149-173 | the middle generation's function changes have the severity the oldest generation computes |
| Generations.MovedChangeMissed | internal/ast/ast.go:208-219 | a signature change behind a newly added function goes unnoticed in both: only the Minor addition |
| Generations.SelfStoresNothing | internal/ast/ast.go:236-260 | a package with unique function names compared with itself stores nothing |
| Cache.Message | internal/cache/cache.go:11-25 | each constant's error text, never empty |
| Cache.MessagesDistinct | internal/cache/cache.go:11-19 | the texts tell the constants apart |
| Cache.Repo.constructor | internal/cache/cache.go:71 | a new repository holds its hash and no references |
| Cache.Repo.Add | internal/cache/cache.go:32-34 | the reference joins the set in place, after which `Has` holds for it |
| Cache.Repo.Has | internal/cache/cache.go:36-39 | a definition with no contract of its own: the lookup in the repository's reference set; Cache.Repo.Add makes it hold, and Cache.Cache.Has and Cache.Cache.Get are stated through it |
| Cache.Known | internal/cache/cache.go:100-108 | a definition with no contract of its own: the references of a path, none for an unknown path; the contracts of Cache.Cache.Has and Cache.Cache.Add are stated with it |
| Cache.Cache.constructor | internal/cache/cache.go:41-44 | the zero state: no directory and a nil table |
| Cache.Cache.Refs | internal/cache/cache.go:41-44 | the table viewed as a map from path to reference set |
| Cache.Cache.Has | internal/cache/cache.go:100-108 | true exactly when the path is known and has the reference |
| Cache.Cache.Get | internal/cache/cache.go:86-98 | RepoNotInCache for an unknown path, then RefNotInCache, otherwise `dir/hash(path)/reference`; it succeeds exactly when `Has` holds |
| Cache.Cache.Setup | internal/cache/cache.go:46-59 | refused when set up, state unchanged; otherwise directory and empty table installed before the mkdir, whose failure is then reported |
| Cache.Cache.Add | internal/cache/cache.go:61-84 | CacheIsNotSetup when not set up; the table gains the path, and the reference unless the repository mkdir fails; idempotent on a known pair; a success is what `Get` returns |
| Cache.Cache.Attach | internal/cache/cache.go:77-83 | an unknown reference is recorded before its mkdir; the joined path unless that mkdir fails |
| Cache.Cache.Register | internal/cache/cache.go:70-71 | a new path gets a fresh, empty repository; no other path changes |
| Cache.Cache.Record | internal/cache/cache.go:78 | the reference joins the path's set, and no other path changes |
| Cache.Cache.Clean | internal/cache/cache.go:110-115 | CacheIsNotSetup exactly when not set up |
| Cache.Cache.Destroy | internal/cache/cache.go:117-124 | CacheIsNotSetup when not set up; otherwise the table is dropped and the result is that of the removal |
| Cache.Lifecycle | internal/cache/cache_test.go:8-30 | set up, refused again, destroyed, failed set-up still counts as set up, destroyed again |

## Left out

- `cmd/semver/main.go`: flag parsing, directory reading, `parser.ParseDir`, printing, timing and the exit code. It is I/O and presentation.
- `go/parser` and `ast.Inspect`: the tree is a `Node` datatype and the walk is `Inspect.Visit`, which keeps the prune-versus-descend answer of each closure.
- `ast.IsExported`, `equalTypeSpec`, `equalNames`, `equalValueSpec` and the `fmt.Sprint` comparison of the older generations are uninterpreted functions in `Env`. Their bodies are not part of this model, and address-dependent printing cannot be modelled.
- The DEBUG `fmt.Printf` at internal/ast/equality.go:122 is output only.
- Token positions (`Snippet`, `Pos`, `End`) and the `Body = nil` writes on the input nodes in internal/ast/func.go are display details. Changes refer to declarations as read-only values.
- `reflect.ValueOf(...).IsNil()`: presence is `Option`, so a typed nil and a nil interface are both `None`.
- Packages.ComparePackage: a nil interface as `previous` is not modelled. Go panics there at internal/ast/package.go:12, because `IsNil` is called on the zero `reflect.Value`, whatever `latest` is, while the model reports the Minor addition. No caller in the repository passes a nil interface: `parser.ParseDir` yields typed nil `*ast.Package` values.
- Packages.ComparePackage requires one side present, because two nil inputs make the Go code dereference a nil package.
- Funcs.CompareFuncDecl, TypeSpecs.DiffTypeSpec and ValueSpecs.DiffValueSpec require one side present. This excludes no reachable input: Matching.TableOccupied proves that the matcher never builds a slot with both sides empty. With both nil, `compareFuncDecl` would dereference nil (internal/ast/func.go:29). What `diffTypeSpec` and `diffValueSpec` would do is unknown, because they then call `equalTypeSpec` and `equalValueSpec`, whose code is not part of this model.
- pkg/ast `compareFuncs` calls `newFuncs` without a nil check, which panics on a nil node, so PkgAst takes present nodes only.
- LegacyAst.CompareFuncs takes a non-nil map: its only caller, `Compare`, passes a fresh one.
- LegacyAst.CompareRows tests the guard `i >= len(previous)` before the inner loop rather than at its head. With a non-empty previous list the two are the same. With an empty one the inner loop never runs.
- Engine.SelfCompareIsPatch: a package compared with itself is a Patch only under three conditions, and the code gives no unconditional self-comparison identity.
  - Receivers and signatures must use only the forms `equalExpr` handles. Any other form (a channel, interface or function-literal type) falls through to `return false` at internal/ast/equality.go:120-123. Engine.UnhandledSelfCompareIsMajor and Engine.ChanParameterSelfCompareIsMajor prove the Major result for such a function.
  - Keys must be unique. Of two declarations with the same key, the later one takes the earlier one's slot (Matching.DuplicateOverwrites), so the earlier one is compared with a different declaration. With `break`, the later one's own slot also stays unclaimed and is reported removed.
  - The `Env` comparisons `equalTypeSpec`, `equalNames` and `equalValueSpec` must be reflexive. Their code is not part of this model, so their reflexivity is assumed, not proved.
- The source of the newest generation's top-level `Compare` is not part of this model. Engine.Compare is this model's own assumption: it merges the package, value-spec, function and type-spec differs in that order. It departs from the older `Compare` of internal/ast/ast.go:236-260 in two ways, listed next.
- Engine.Compare: no early return after the presence change. The older `Compare` returns the presence change alone (internal/ast/ast.go:243-255). The model runs every differ, so a removed package also reports the removal of each exported function, type and value it held.
- Engine.Compare: the value-spec differ is the one of internal/ast/value-spec.go, not the one of internal/ast/const.go. The two files declare the same `compareValueSpec`, so only one of them can be built. value-spec.go's has the "changed signature" rule that const.go's lacks. The const.go differ is modelled on its own as `Consts`.
- The `compose` helpers take a list of comparator functions. Both generations pass only `compareFuncs`, so the model composes that one directly.
- SHA-1, `filepath.Join`, `os.Mkdir` and `os.RemoveAll` are constructor arguments and boolean outcomes. The error values the operating system returns are all `OsError`.
- Cache.Message: states no text for `OsError`, whose text comes from the operating system.
- `PathIsAlreadyCached` and `PathIsNotCached` are declared in internal/cache/cache.go but never returned. They are in the `Error` datatype and nothing produces them.
- Go's map iteration order in `Diff.Type` and `Merge` of internal/ast/ast.go is arbitrary. The model picks entries with `:|`, so its proofs hold for every order.
- There is no concurrency in the core.
