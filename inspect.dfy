/**
 * `ast.Inspect(node, f)`: a depth-first, pre-order walk that hands every
 * node to `f` and descends into a node's children only when `f` returns
 * true for it. The extractors differ only in that answer, so the walk is
 * modelled once, by the sequence of node kinds handed to `f`.
 */
module Inspect {
  import opened Wrappers
  import opened GoSyntax

  /** The node kinds `f` sees, in order, when it answers `descend(kind)`. */
  function Visit(n: Node, descend: NodeKind -> bool): (r: seq<NodeKind>)
    ensures |r| >= 1 && r[0] == n.kind
    ensures !descend(n.kind) ==> r == [n.kind]
    decreases n, 1
  {
    [n.kind] + (if descend(n.kind) then VisitChildren(n, 0, descend) else [])
  }

  /** The walk over `n.children[i..]`, one child subtree after the other. */
  function VisitChildren(n: Node, i: nat, descend: NodeKind -> bool): seq<NodeKind>
    requires i <= |n.children|
    decreases n, 0, |n.children| - i
  {
    if i == |n.children| then []
    else Visit(n.children[i], descend) + VisitChildren(n, i + 1, descend)
  }

  /** The answer of a closure that always returns true. */
  function Always(): NodeKind -> bool {
    k => true
  }

  /** The walk that always descends: every node of the tree, in pre-order. */
  function Preorder(n: Node): seq<NodeKind> {
    Visit(n, Always())
  }

  /**
   * Appending a child subtree appends its walk: the walks of the existing
   * children are untouched.
   */
  lemma {:induction false} VisitChildrenAppend(k: NodeKind, cs: seq<Node>, c: Node, i: nat, descend: NodeKind -> bool)
    requires i <= |cs|
    ensures VisitChildren(Node(k, cs + [c]), i, descend)
         == VisitChildren(Node(k, cs), i, descend) + Visit(c, descend)
    decreases |cs| - i
  {
    var n, n' := Node(k, cs), Node(k, cs + [c]);
    if i == |cs| {
      assert n'.children[i] == c;
      assert VisitChildren(n', i + 1, descend) == [];
    } else {
      assert n'.children[i] == n.children[i];
      VisitChildrenAppend(k, cs, c, i + 1, descend);
    }
  }

  /** A node with one more child: its walk is the old walk followed by the new subtree's. */
  lemma VisitAppendChild(k: NodeKind, cs: seq<Node>, c: Node, descend: NodeKind -> bool)
    requires descend(k)
    ensures Visit(Node(k, cs + [c]), descend) == Visit(Node(k, cs), descend) + Visit(c, descend)
  {
    VisitChildrenAppend(k, cs, c, 0, descend);
  }

  /** The values `pick` finds in `ks`, in order: what an extractor's closure appends. */
  function Picked<T>(ks: seq<NodeKind>, pick: NodeKind -> Option<T>): (r: seq<T>)
    ensures |r| <= |ks|
    decreases |ks|
  {
    if ks == [] then []
    else
      var k := ks[|ks| - 1];
      Picked(ks[..|ks| - 1], pick) + (if pick(k).Some? then [pick(k).value] else [])
  }

  /**
   * What an extractor returns: nothing for a nil node, otherwise the values
   * its closure picks out of the nodes the walk hands it.
   */
  function Extracted<T>(node: Option<Node>, descend: NodeKind -> bool, pick: NodeKind -> Option<T>): seq<T> {
    if node.None? then [] else Picked(Visit(node.value, descend), pick)
  }

  /**
   * An extractor: `ast.Inspect` with a closure that appends to `result`
   * each node it picks, and answers `descend` for every node.
   */
  method Collect<T>(node: Option<Node>, descend: NodeKind -> bool, pick: NodeKind -> Option<T>)
    returns (result: seq<T>)
    ensures result == Extracted(node, descend, pick)
  {
    result := [];
    if node.None? {
      return;
    }
    var ks := Visit(node.value, descend);
    var i := 0;
    while i < |ks|
      invariant 0 <= i <= |ks|
      invariant result == Picked(ks[..i], pick)
    {
      assert ks[..i + 1][..i] == ks[..i];
      var x := pick(ks[i]);
      if x.Some? {
        result := result + [x.value];
      }
      i := i + 1;
    }
    assert ks[..i] == ks;
  }

  /** A value is extracted exactly when some visited node yields it. */
  lemma {:induction false} PickedMember<T>(ks: seq<NodeKind>, pick: NodeKind -> Option<T>, x: T)
    ensures x in Picked(ks, pick) <==> exists i :: 0 <= i < |ks| && pick(ks[i]) == Some(x)
    decreases |ks|
  {
    if ks != [] {
      var ks' := ks[..|ks| - 1];
      PickedMember(ks', pick, x);
      assert forall i :: 0 <= i < |ks'| ==> ks'[i] == ks[i];
      if pick(ks[|ks| - 1]) == Some(x) {
        assert Picked(ks, pick)[|Picked(ks, pick)| - 1] == x;
      }
    }
  }

  /** Extraction keeps the walk's order: the values of a concatenated walk concatenate. */
  lemma {:induction false} PickedAppend<T>(a: seq<NodeKind>, b: seq<NodeKind>, pick: NodeKind -> Option<T>)
    ensures Picked(a + b, pick) == Picked(a, pick) + Picked(b, pick)
    decreases |b|
  {
    if b == [] {
      assert a + b == a;
    } else {
      var b' := b[..|b| - 1];
      assert (a + b)[..|a + b| - 1] == a + b';
      PickedAppend(a, b', pick);
    }
  }

  /** A node the closure answers false for contributes at most itself: its subtree is skipped. */
  lemma Pruned<T>(k: NodeKind, cs: seq<Node>, descend: NodeKind -> bool, pick: NodeKind -> Option<T>)
    requires !descend(k)
    ensures Extracted(Some(Node(k, cs)), descend, pick) == Picked([k], pick)
  {
  }
}
