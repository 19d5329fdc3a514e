/**
 * internal/ast/package.go: the package-presence rule. A snapshot is
 * absent (`None`) or a syntax tree whose root may or may not be a package.
 */
module Packages {
  import opened Wrappers
  import opened GoSyntax
  import opened Diffs
  import Severity

  /** The snapshot is present and its root is a package. */
  predicate IsPackage(n: Option<Node>) {
    n.Some? && n.value.kind.PackageNode?
  }

  /**
   * `comparePackage`. With both sides absent Go reaches `v.Name` on a nil
   * package, so one side must be present. An absent side is a typed nil
   * `*ast.Package`, as `parser.ParseDir`'s map yields; a nil interface as
   * `previous` would make Go call `IsNil` on the zero `reflect.Value` and
   * panic whatever `latest` is, and no caller in the repository passes one.
   */
  function ComparePackage(previous: Option<Node>, latest: Option<Node>): (r: Diff)
    requires previous.Some? || latest.Some?
    ensures |r| <= 1
    ensures r != [] <==> (IsPackage(previous) && latest.None?) || (previous.None? && IsPackage(latest))
    ensures IsPackage(previous) && latest.None? ==>
              r == [Change(Severity.Major, "removal of package " + previous.value.kind.packageName, None, None)]
    ensures previous.None? && IsPackage(latest) ==>
              r == [Change(Severity.Minor, "addition of package " + latest.value.kind.packageName, None, None)]
  {
    if previous.Some? && latest.None? && previous.value.kind.PackageNode? then
      Add([], [Change(Severity.Major, "removal of package " + previous.value.kind.packageName, None, None)])
    else if previous.None? && latest.Some? && latest.value.kind.PackageNode? then
      Add([], [Change(Severity.Minor, "addition of package " + latest.value.kind.packageName, None, None)])
    else []
  }

  /** Removing a package is Major, adding one Minor, and keeping one contributes nothing. */
  lemma PresenceSeverity(previous: Option<Node>, latest: Option<Node>)
    requires previous.Some? || latest.Some?
    ensures IsPackage(previous) && latest.None? ==> TypeOf(ComparePackage(previous, latest)) == Severity.Major
    ensures previous.None? && IsPackage(latest) ==> TypeOf(ComparePackage(previous, latest)) == Severity.Minor
    ensures previous.Some? && latest.Some? ==> TypeOf(ComparePackage(previous, latest)) == Severity.Patch
  {
    var r := ComparePackage(previous, latest);
    if r != [] {
      assert r[..0] == [];
    }
  }
}
