/** What the bounded search of the accessibility bridge tests, said of index paths alone
  (native/computer-use-linux/runtime.py, `first_descendant`). */
module DescendantPaths {
  import opened Wrappers
  import opened Collections
  import opened IndexPaths
  import opened DescendantSearch

  /** The node that a path of child indexes leads to. */
  function NodeAt(kids: Graph, n: Node, path: seq<nat>): Option<Node>
    decreases |path|
  {
    if path == [] then Some(n)
    else if path[0] < |kids(n)| then NodeAt(kids, kids(n)[path[0]], path[1..])
    else None
  }

  datatype Spot = Spot(path: seq<nat>, node: Node)

  /** The spot is in the subtree of `n`, which stands at `base`, at most `levels` levels below it. */
  ghost predicate IsSpot(kids: Graph, n: Node, base: seq<nat>, levels: nat, s: Spot) {
    base <= s.path && |s.path| <= |base| + levels && NodeAt(kids, n, s.path[|base|..]) == Some(s.node)
  }

  ghost predicate InOrder(spots: seq<Spot>) {
    forall i, j :: 0 <= i < j < |spots| ==> DocBefore(spots[i].path, spots[j].path)
  }

  function NodesOf(spots: seq<Spot>): seq<Node> {
    seq(|spots|, i requires 0 <= i < |spots| => spots[i].node)
  }

  lemma NodesConcat(a: seq<Spot>, b: seq<Spot>)
    ensures NodesOf(a + b) == NodesOf(a) + NodesOf(b)
  {
  }

  lemma OrderConcat(a: seq<Spot>, b: seq<Spot>)
    requires InOrder(a) && InOrder(b)
    requires forall x, y :: x in a && y in b ==> DocBefore(x.path, y.path)
    ensures InOrder(a + b)
  {
    forall i, j | 0 <= i < j < |a + b| ensures DocBefore((a + b)[i].path, (a + b)[j].path) {
      assert i < |a| ==> (a + b)[i] in a;
      assert j >= |a| ==> (a + b)[j] in b;
    }
  }

  // ----- The preorder with its paths

  function Spots(q: Query, n: Node, depth: nat, base: seq<nat>): seq<Spot>
    decreases q.maxDepth - depth, 1, 0
  {
    if depth >= q.maxDepth then [Spot(base, n)]
    else [Spot(base, n)] + SpotsAll(q, q.kids(n), depth + 1, base, 0)
  }

  function SpotsAll(q: Query, nodes: seq<Node>, depth: nat, base: seq<nat>, from: nat): seq<Spot>
    requires depth <= q.maxDepth
    decreases q.maxDepth - depth, 2, |nodes|
  {
    if nodes == [] then []
    else Spots(q, nodes[0], depth, base + [from]) + SpotsAll(q, nodes[1..], depth, base, from + 1)
  }

  lemma {:induction false} SpotsAreNodes(q: Query, n: Node, depth: nat, base: seq<nat>)
    ensures NodesOf(Spots(q, n, depth, base)) == Preorder(q, n, depth)
    decreases q.maxDepth - depth, 1, 0
  {
    if depth < q.maxDepth {
      SpotsAllAreNodes(q, q.kids(n), depth + 1, base, 0);
      NodesConcat([Spot(base, n)], SpotsAll(q, q.kids(n), depth + 1, base, 0));
    }
  }

  lemma {:induction false} SpotsAllAreNodes(q: Query, nodes: seq<Node>, depth: nat, base: seq<nat>, from: nat)
    requires depth <= q.maxDepth
    ensures NodesOf(SpotsAll(q, nodes, depth, base, from)) == PreorderAll(q, nodes, depth)
    decreases q.maxDepth - depth, 2, |nodes|
  {
    if nodes != [] {
      SpotsAreNodes(q, nodes[0], depth, base + [from]);
      SpotsAllAreNodes(q, nodes[1..], depth, base, from + 1);
      NodesConcat(Spots(q, nodes[0], depth, base + [from]), SpotsAll(q, nodes[1..], depth, base, from + 1));
    }
  }

  // ----- Its members

  ghost predicate AmongSpots(kids: Graph, nodes: seq<Node>, base: seq<nat>, from: nat, levels: nat, s: Spot) {
    exists k: nat :: k < |nodes| && IsSpot(kids, nodes[k], base + [from + k], levels, s)
  }

  lemma SpotUnfolds(kids: Graph, n: Node, base: seq<nat>, levels: nat, s: Spot)
    requires levels > 0
    ensures IsSpot(kids, n, base, levels, s) <==>
      s == Spot(base, n) || AmongSpots(kids, kids(n), base, 0, levels - 1, s)
  {
    if base <= s.path && |s.path| > |base| {
      var k := s.path[|base|];
      PathBelow(base, s.path, k);
      assert k < |kids(n)| ==> (IsSpot(kids, n, base, levels, s)
                                <==> IsSpot(kids, kids(n)[k], base + [0 + k], levels - 1, s));
    }
    forall k: nat | k < |kids(n)| && IsSpot(kids, kids(n)[k], base + [0 + k], levels - 1, s)
      ensures |s.path| > |base| && base <= s.path && s.path[|base|] == k
    {
      PathBelow(base, s.path, k);
    }
    assert base <= s.path && |s.path| == |base| ==> s.path == base;
  }

  lemma SpotAlone(kids: Graph, n: Node, base: seq<nat>, s: Spot)
    ensures IsSpot(kids, n, base, 0, s) <==> s == Spot(base, n)
  {
    assert base <= s.path && |s.path| == |base| ==> s.path == base;
  }

  lemma AmongUnfolds(kids: Graph, nodes: seq<Node>, base: seq<nat>, from: nat, levels: nat, s: Spot)
    requires nodes != []
    ensures AmongSpots(kids, nodes, base, from, levels, s) <==>
      IsSpot(kids, nodes[0], base + [from], levels, s) || AmongSpots(kids, nodes[1..], base, from + 1, levels, s)
  {
    assert from + 0 == from;
    if k: nat :| k < |nodes| && IsSpot(kids, nodes[k], base + [from + k], levels, s) {
      if k > 0 {
        assert nodes[1..][k - 1] == nodes[k] && from + 1 + (k - 1) == from + k;
      }
    }
    if k: nat :| k < |nodes[1..]| && IsSpot(kids, nodes[1..][k], base + [from + 1 + k], levels, s) {
      assert nodes[1..][k] == nodes[k + 1] && from + (k + 1) == from + 1 + k;
    }
  }

  lemma {:induction false} SpotsHave(q: Query, n: Node, depth: nat, base: seq<nat>, s: Spot)
    requires depth <= q.maxDepth
    ensures s in Spots(q, n, depth, base) <==> IsSpot(q.kids, n, base, q.maxDepth - depth, s)
    decreases q.maxDepth - depth, 1, 0
  {
    if depth == q.maxDepth {
      SpotAlone(q.kids, n, base, s);
    } else {
      SpotUnfolds(q.kids, n, base, q.maxDepth - depth, s);
      SpotsAllHave(q, q.kids(n), depth + 1, base, 0, s);
    }
  }

  lemma {:induction false} SpotsAllHave(q: Query, nodes: seq<Node>, depth: nat, base: seq<nat>, from: nat, s: Spot)
    requires depth <= q.maxDepth
    ensures s in SpotsAll(q, nodes, depth, base, from)
       <==> AmongSpots(q.kids, nodes, base, from, q.maxDepth - depth, s)
    decreases q.maxDepth - depth, 2, |nodes|
  {
    if nodes != [] {
      AmongUnfolds(q.kids, nodes, base, from, q.maxDepth - depth, s);
      SpotsHave(q, nodes[0], depth, base + [from], s);
      SpotsAllHave(q, nodes[1..], depth, base, from + 1, s);
    }
  }

  // ----- Its order

  lemma {:induction false} SpotsInOrder(q: Query, n: Node, depth: nat, base: seq<nat>)
    requires depth <= q.maxDepth
    ensures InOrder(Spots(q, n, depth, base))
    decreases q.maxDepth - depth, 1, 0
  {
    if depth < q.maxDepth {
      var below := SpotsAll(q, q.kids(n), depth + 1, base, 0);
      SpotsAllInOrder(q, q.kids(n), depth + 1, base, 0);
      forall s | s in below ensures DocBefore(base, s.path) {
        SpotsAllHave(q, q.kids(n), depth + 1, base, 0, s);
        var k: nat :| k < |q.kids(n)| && IsSpot(q.kids, q.kids(n)[k], base + [0 + k], q.maxDepth - depth - 1, s);
        PathBelow(base, s.path, 0 + k);
        RootBefore(base, s.path);
      }
      OrderConcat([Spot(base, n)], below);
    }
  }

  lemma SiblingSpots(q: Query, nodes: seq<Node>, depth: nat, base: seq<nat>, from: nat, x: Spot, y: Spot)
    requires depth <= q.maxDepth && nodes != []
    requires x in Spots(q, nodes[0], depth, base + [from])
    requires y in SpotsAll(q, nodes[1..], depth, base, from + 1)
    ensures DocBefore(x.path, y.path)
  {
    SpotsHave(q, nodes[0], depth, base + [from], x);
    SpotsAllHave(q, nodes[1..], depth, base, from + 1, y);
    LaterSpot(q.kids, nodes[1..], base, from, q.maxDepth - depth, x.path, y);
  }

  lemma LaterSpot(kids: Graph, rest: seq<Node>, base: seq<nat>, from: nat, levels: nat, path: seq<nat>, y: Spot)
    requires base + [from] <= path && AmongSpots(kids, rest, base, from + 1, levels, y)
    ensures DocBefore(path, y.path)
  {
    var k: nat :| k < |rest| && IsSpot(kids, rest[k], base + [from + 1 + k], levels, y);
    SiblingBefore(base, from, from + 1 + k, path, y.path);
  }

  lemma {:induction false} SpotsAllInOrder(q: Query, nodes: seq<Node>, depth: nat, base: seq<nat>, from: nat)
    requires depth <= q.maxDepth
    ensures InOrder(SpotsAll(q, nodes, depth, base, from))
    decreases q.maxDepth - depth, 2, |nodes|
  {
    if nodes != [] {
      var first := Spots(q, nodes[0], depth, base + [from]);
      var later := SpotsAll(q, nodes[1..], depth, base, from + 1);
      SpotsInOrder(q, nodes[0], depth, base + [from]);
      SpotsAllInOrder(q, nodes[1..], depth, base, from + 1);
      forall x, y | x in first && y in later ensures DocBefore(x.path, y.path) {
        SiblingSpots(q, nodes, depth, base, from, x, y);
      }
      OrderConcat(first, later);
    }
  }

  // ----- Main results

  /** The spots are all those that a path of at most `maxDepth` child indexes leads to, in document
    order. */
  ghost predicate AreAllSpots(q: Query, root: Node, spots: seq<Spot>) {
    && InOrder(spots)
    && forall s :: s in spots <==> |s.path| <= q.maxDepth && NodeAt(q.kids, root, s.path) == Some(s.node)
  }

  /** No node stands at two paths within the depth bound. */
  ghost predicate IsTree(q: Query, root: Node) {
    forall p, r | |p| <= q.maxDepth && |r| <= q.maxDepth && NodeAt(q.kids, root, p).Some? ::
      NodeAt(q.kids, root, p) == NodeAt(q.kids, root, r) ==> p == r
  }

  lemma PreorderSpots(q: Query, root: Node) returns (spots: seq<Spot>)
    ensures AreAllSpots(q, root, spots) && NodesOf(spots) == Preorder(q, root, 0)
  {
    spots := Spots(q, root, 0, []);
    SpotsAreNodes(q, root, 0, []);
    SpotsInOrder(q, root, 0, []);
    forall s ensures s in spots <==> |s.path| <= q.maxDepth && NodeAt(q.kids, root, s.path) == Some(s.node) {
      SpotsHave(q, root, 0, [], s);
      assert s.path[0..] == s.path;
    }
  }

  lemma NotBeforeItself(p: seq<nat>)
    ensures !DocBefore(p, p)
  {
  }

  lemma TreeIsDistinct(q: Query, root: Node, spots: seq<Spot>)
    requires AreAllSpots(q, root, spots) && IsTree(q, root)
    ensures Distinct(NodesOf(spots))
  {
    forall i, j | 0 <= i < j < |spots| ensures spots[i].node != spots[j].node {
      assert spots[i] in spots && spots[j] in spots;
      NotBeforeItself(spots[i].path);
    }
  }

  /** On a tree the search returns the first match, in document order, among the first `maxNodes` of
    the nodes at most `maxDepth` levels down, or nothing if none of those matches. */
  lemma FirstInDocumentOrder(q: Query, root: Node) returns (spots: seq<Spot>)
    requires IsTree(q, root)
    ensures AreAllSpots(q, root, spots)
    ensures
      match Search(q, root, 0, START).found
      case None => forall j :: 0 <= j < |spots| && j < q.maxNodes ==> !q.matches(spots[j].node)
      case Some(n) =>
        exists i :: 0 <= i < |spots| && i < q.maxNodes && spots[i].node == n && q.matches(n)
          && forall j :: 0 <= j < i ==> !q.matches(spots[j].node)
  {
    spots := PreorderSpots(q, root);
    TreeIsDistinct(q, root, spots);
    SearchOnTree(q, root);
    FirstAmongSpots(q, spots, Search(q, root, 0, START).found);
  }

  lemma FirstAmongSpots(q: Query, spots: seq<Spot>, found: Option<Node>)
    requires FindsFirst(q, Take(NodesOf(spots), q.maxNodes), found)
    ensures
      match found
      case None => forall j :: 0 <= j < |spots| && j < q.maxNodes ==> !q.matches(spots[j].node)
      case Some(n) =>
        exists i :: 0 <= i < |spots| && i < q.maxNodes && spots[i].node == n && q.matches(n)
          && forall j :: 0 <= j < i ==> !q.matches(spots[j].node)
  {
    var nodes := Take(NodesOf(spots), q.maxNodes);
    assert forall j :: 0 <= j < |nodes| ==> nodes[j] == spots[j].node;
    match found
    case None =>
    case Some(n) =>
      var i :| 0 <= i < |nodes| && nodes[i] == n && q.matches(n) && forall j :: 0 <= j < i ==> !q.matches(nodes[j]);
      assert forall j :: 0 <= j < i ==> nodes[j] == spots[j].node;
  }
}
