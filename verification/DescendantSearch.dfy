/** The budgeted explicit-stack search of the accessibility bridge
  (native/computer-use-linux/runtime.py, `first_descendant`).

  Nodes are identities; `kids` is any graph, cyclic or not.  The loop is shown to compute the
  recursive depth-first search that shares its budgets, and on trees that search is the first
  match among the first `maxNodes` nodes of the depth-bounded preorder. */
module DescendantSearch {
  import opened Wrappers
  import opened Collections

  type Node = int
  type Graph = Node -> seq<Node>
  type Predicate = Node -> bool

  datatype Query = Query(kids: Graph, matches: Predicate, maxNodes: nat, maxDepth: nat)

  /** The nodes tested so far, in order, and the match that ended the search. */
  datatype Progress = Progress(tested: seq<Node>, found: Option<Node>)

  const START := Progress([], None)

  predicate Done(q: Query, p: Progress) {
    p.found.Some? || |p.tested| >= q.maxNodes
  }

  function Test(q: Query, n: Node, p: Progress): Progress {
    Progress(p.tested + [n], if q.matches(n) then Some(n) else None)
  }

  // ----- Recursive search

  function Search(q: Query, n: Node, depth: nat, p: Progress): Progress
    decreases q.maxDepth - depth, 1, 0
  {
    if Done(q, p) || n in p.tested then p
    else if q.matches(n) || depth >= q.maxDepth then Test(q, n, p)
    else SearchAll(q, q.kids(n), depth + 1, Test(q, n, p))
  }

  function SearchAll(q: Query, nodes: seq<Node>, depth: nat, p: Progress): Progress
    requires depth <= q.maxDepth
    decreases q.maxDepth - depth, 2, |nodes|
  {
    if nodes == [] then p else SearchAll(q, nodes[1..], depth, Search(q, nodes[0], depth, p))
  }

  lemma {:induction false} SearchAllDone(q: Query, nodes: seq<Node>, depth: nat, p: Progress)
    requires depth <= q.maxDepth && Done(q, p)
    ensures SearchAll(q, nodes, depth, p) == p
    decreases |nodes|
  {
    if nodes != [] {
      SearchAllDone(q, nodes[1..], depth, p);
    }
  }

  // ----- What every search keeps, on any graph

  /** No node is tested twice, the budget holds, and the search stops at the first match. */
  ghost predicate Sound(q: Query, p: Progress) {
    && Distinct(p.tested)
    && |p.tested| <= q.maxNodes
    && (forall i :: 0 <= i < |p.tested| ==>
          (q.matches(p.tested[i]) <==> p.found.Some? && i == |p.tested| - 1))
    && (p.found.Some? ==> p.tested != [] && p.found.value == p.tested[|p.tested| - 1])
  }

  lemma {:induction false} SearchSound(q: Query, n: Node, depth: nat, p: Progress)
    requires Sound(q, p)
    ensures Sound(q, Search(q, n, depth, p))
    decreases q.maxDepth - depth, 1, 0
  {
    if !(Done(q, p) || n in p.tested || q.matches(n) || depth >= q.maxDepth) {
      SearchAllSound(q, q.kids(n), depth + 1, Test(q, n, p));
    }
  }

  lemma {:induction false} SearchAllSound(q: Query, nodes: seq<Node>, depth: nat, p: Progress)
    requires depth <= q.maxDepth && Sound(q, p)
    ensures Sound(q, SearchAll(q, nodes, depth, p))
    decreases q.maxDepth - depth, 2, |nodes|
  {
    if nodes != [] {
      SearchSound(q, nodes[0], depth, p);
      SearchAllSound(q, nodes[1..], depth, Search(q, nodes[0], depth, p));
    }
  }

  // ----- Trees: the depth-bounded preorder

  function Preorder(q: Query, n: Node, depth: nat): seq<Node>
    decreases q.maxDepth - depth, 1, 0
  {
    if depth >= q.maxDepth then [n] else [n] + PreorderAll(q, q.kids(n), depth + 1)
  }

  function PreorderAll(q: Query, nodes: seq<Node>, depth: nat): seq<Node>
    requires depth <= q.maxDepth
    decreases q.maxDepth - depth, 2, |nodes|
  {
    if nodes == [] then [] else Preorder(q, nodes[0], depth) + PreorderAll(q, nodes[1..], depth)
  }

  /** Testing a list of nodes one after the other until the search is done. */
  function TestAll(q: Query, nodes: seq<Node>, p: Progress): Progress
    decreases |nodes|
  {
    if nodes == [] || Done(q, p) then p else TestAll(q, nodes[1..], Test(q, nodes[0], p))
  }

  lemma {:induction false} TestAllConcat(q: Query, s: seq<Node>, t: seq<Node>, p: Progress)
    ensures TestAll(q, s + t, p) == TestAll(q, t, TestAll(q, s, p))
    decreases |s|
  {
    if s == [] {
      assert s + t == t;
    } else if !Done(q, p) {
      TestAllConcat(q, s[1..], t, Test(q, s[0], p));
      assert (s + t)[1..] == s[1..] + t && (s + t)[0] == s[0];
    }
  }

  /** When no node repeats, searching is testing the preorder. */
  lemma {:induction false} SearchIsPreorder(q: Query, n: Node, depth: nat, p: Progress)
    requires Distinct(p.tested + Preorder(q, n, depth))
    ensures Search(q, n, depth, p) == TestAll(q, Preorder(q, n, depth), p)
    decreases q.maxDepth - depth, 1, 0
  {
    var order := Preorder(q, n, depth);
    assert order[0] == n;
    FreshAfterPrefix(p.tested, order);
    if !Done(q, p) {
      var p1 := Test(q, n, p);
      if depth < q.maxDepth {
        var below := PreorderAll(q, q.kids(n), depth + 1);
        assert order[1..] == below;
        assert p1.tested + below == p.tested + order;
        SearchAllIsPreorder(q, q.kids(n), depth + 1, p1);
      }
    }
  }

  lemma {:induction false} SearchAllIsPreorder(q: Query, nodes: seq<Node>, depth: nat, p: Progress)
    requires depth <= q.maxDepth
    requires Distinct(p.tested + PreorderAll(q, nodes, depth))
    ensures SearchAll(q, nodes, depth, p) == TestAll(q, PreorderAll(q, nodes, depth), p)
    decreases q.maxDepth - depth, 2, |nodes|
  {
    if nodes != [] {
      var first, rest := Preorder(q, nodes[0], depth), PreorderAll(q, nodes[1..], depth);
      assert p.tested + (first + rest) == p.tested + first + rest;
      DistinctPrefix(p.tested + first, rest);
      SearchIsPreorder(q, nodes[0], depth, p);
      TestAllIsAppend(q, first, p, rest);
      SearchAllIsPreorder(q, nodes[1..], depth, TestAll(q, first, p));
      TestAllConcat(q, first, rest, p);
    }
  }

  lemma FreshAfterPrefix(s: seq<Node>, t: seq<Node>)
    requires Distinct(s + t) && t != []
    ensures t[0] !in s
  {
    assert (s + t)[|s|] == t[0];
    assert forall i :: 0 <= i < |s| ==> (s + t)[i] == s[i];
  }

  lemma DistinctPrefix(s: seq<Node>, t: seq<Node>)
    requires Distinct(s + t)
    ensures Distinct(s)
  {
    forall i, j | 0 <= i < j < |s| ensures s[i] != s[j] {
      assert (s + t)[i] == s[i] && (s + t)[j] == s[j];
    }
  }

  lemma {:induction false} TestAllIsAppend(q: Query, s: seq<Node>, p: Progress, rest: seq<Node>)
    requires Distinct(p.tested + s + rest)
    ensures Distinct(TestAll(q, s, p).tested + rest)
    decreases |s|
  {
    if s == [] || Done(q, p) {
      DistinctWithoutMiddle(p.tested, s, rest);
    } else {
      assert Test(q, s[0], p).tested + s[1..] + rest == p.tested + s + rest;
      TestAllIsAppend(q, s[1..], Test(q, s[0], p), rest);
    }
  }

  lemma DistinctWithoutMiddle(a: seq<Node>, b: seq<Node>, c: seq<Node>)
    requires Distinct(a + b + c)
    ensures Distinct(a + c)
  {
    var whole := a + b + c;
    forall i, j | 0 <= i < j < |a + c| ensures (a + c)[i] != (a + c)[j] {
      var i' := if i < |a| then i else i + |b|;
      var j' := if j < |a| then j else j + |b|;
      assert whole[i'] == (a + c)[i] && whole[j'] == (a + c)[j];
    }
  }

  /** `n` is the first match in `nodes`. */
  ghost predicate IsFirstMatch(q: Query, nodes: seq<Node>, n: Node) {
    exists i :: 0 <= i < |nodes| && nodes[i] == n && q.matches(n) &&
      forall j :: 0 <= j < i ==> !q.matches(nodes[j])
  }

  ghost predicate NoMatch(q: Query, nodes: seq<Node>) {
    forall j :: 0 <= j < |nodes| ==> !q.matches(nodes[j])
  }

  /** `found` is the first match in `nodes`, or nothing when there is none. */
  ghost predicate FindsFirst(q: Query, nodes: seq<Node>, found: Option<Node>) {
    match found
    case None => NoMatch(q, nodes)
    case Some(n) => IsFirstMatch(q, nodes, n)
  }

  lemma {:induction false} TestAllFindsFirst(q: Query, nodes: seq<Node>, p: Progress)
    requires p.found.None? && |p.tested| <= q.maxNodes
    ensures FindsFirst(q, Take(nodes, q.maxNodes - |p.tested|), TestAll(q, nodes, p).found)
    decreases |nodes|
  {
    if nodes != [] && !Done(q, p) {
      var budget := Take(nodes, q.maxNodes - |p.tested|);
      var rest := Take(nodes[1..], q.maxNodes - |p.tested| - 1);
      assert budget == [nodes[0]] + rest;
      var p1 := Test(q, nodes[0], p);
      if q.matches(nodes[0]) {
        assert budget[0] == nodes[0];
        assert TestAll(q, nodes, p) == p1;
      } else {
        TestAllFindsFirst(q, nodes[1..], p1);
        SkipNoMatch(q, nodes[0], rest);
      }
    }
  }

  /** A node that does not match can be put in front. */
  lemma SkipNoMatch(q: Query, first: Node, rest: seq<Node>)
    requires !q.matches(first)
    ensures NoMatch(q, rest) ==> NoMatch(q, [first] + rest)
    ensures forall n :: IsFirstMatch(q, rest, n) ==> IsFirstMatch(q, [first] + rest, n)
  {
    var all := [first] + rest;
    forall n | IsFirstMatch(q, rest, n) ensures IsFirstMatch(q, all, n) {
      var i :| 0 <= i < |rest| && rest[i] == n && q.matches(n) && forall j :: 0 <= j < i ==> !q.matches(rest[j]);
      assert all[i + 1] == n;
      assert forall j :: 0 <= j < i + 1 ==> j == 0 || all[j] == rest[j - 1];
    }
  }

  lemma TestAllFromStart(q: Query, nodes: seq<Node>)
    ensures FindsFirst(q, Take(nodes, q.maxNodes), TestAll(q, nodes, START).found)
  {
    TestAllFindsFirst(q, nodes, START);
  }

  lemma NothingTested(order: seq<Node>)
    ensures START.tested + order == order
  {
  }

  /** On a tree the search returns the first match among the first `maxNodes` nodes of the
    depth-bounded preorder, or nothing. */
  lemma SearchOnTree(q: Query, root: Node)
    requires Distinct(Preorder(q, root, 0))
    ensures FindsFirst(q, Take(Preorder(q, root, 0), q.maxNodes), Search(q, root, 0, START).found)
  {
    NothingTested(Preorder(q, root, 0));
    SearchIsPreorder(q, root, 0, START);
    TestAllFromStart(q, Preorder(q, root, 0));
  }

  /** Node 2 is shared, and first met at the depth bound. */
  function SharedKids(n: Node): seq<Node> {
    if n == 0 then [1, 2] else if n == 1 then [2] else if n == 2 then [3] else []
  }

  /** Off trees the search can miss a match within both budgets: here node 2 is first met at
    the depth bound, so it is never expanded, although 0 -> 2 -> 3 is within the bound and 3 is among
    the first five nodes of the preorder. */
  lemma SharedNodeHidesMatch(maxNodes: nat)
    requires maxNodes >= 5
    ensures
      var q := Query(SharedKids, n => n == 3, maxNodes, 2);
      Search(q, 0, 0, START).found == None && 3 in Take(Preorder(q, 0, 0), maxNodes)
  {
    var q := Query(SharedKids, n => n == 3, maxNodes, 2);
    SharedSearch(q);
    SharedPreorder(q);
    assert Preorder(q, 0, 0)[4] == 3;
  }

  lemma SharedSearch(q: Query)
    requires q.maxDepth == 2 && q.kids(0) == [1, 2] && q.kids(1) == [2] && q.maxNodes >= 5
    requires !q.matches(0) && !q.matches(1) && !q.matches(2)
    ensures Search(q, 0, 0, START).found == None
  {
    var p0, p1, p2 := Progress([0], None), Progress([0, 1], None), Progress([0, 1, 2], None);
    assert Test(q, 0, START) == p0 && Test(q, 1, p0) == p1 && Test(q, 2, p1) == p2;
    assert [1, 2][1..] == [2] && [2][1..] == [];
    assert SearchAll(q, [], 2, p2) == p2 && SearchAll(q, [], 1, p2) == p2;
    assert SearchAll(q, [2], 2, p1) == p2;
    assert Search(q, 1, 1, p0) == p2;
    assert SearchAll(q, [2], 1, p2) == p2;
    assert SearchAll(q, [1, 2], 1, p0) == p2;
  }

  lemma SharedPreorder(q: Query)
    requires q.maxDepth == 2 && q.kids(0) == [1, 2] && q.kids(1) == [2] && q.kids(2) == [3]
    ensures Preorder(q, 0, 0) == [0, 1, 2, 2, 3]
  {
    assert PreorderAll(q, [3], 2) == [3] + [];
    assert Preorder(q, 2, 1) == [2] + [3];
    assert PreorderAll(q, [2], 2) == [2] + [];
    assert Preorder(q, 1, 1) == [1] + [2];
    assert [1, 2][1..] == [2];
    assert PreorderAll(q, [2], 1) == [2, 3] + [];
    assert PreorderAll(q, [1, 2], 1) == [1, 2] + [2, 3];
    assert Preorder(q, 0, 0) == [0] + [1, 2, 2, 3];
  }

  // ----- Any graph: complete as long as the budgets are wide enough

  ghost predicate IsWalk(kids: Graph, walk: seq<Node>) {
    walk != [] && forall i :: 0 <= i < |walk| - 1 ==> walk[i + 1] in kids(walk[i])
  }

  ghost predicate Reachable(kids: Graph, from: Node, to: Node) {
    exists walk :: IsWalk(kids, walk) && walk[0] == from && walk[|walk| - 1] == to
  }

  ghost predicate Closed(kids: Graph, nodes: set<Node>) {
    forall n, k :: n in nodes && k in kids(n) ==> k in nodes
  }

  /** A walk from `root` that meets no node twice. */
  ghost predicate IsPath(kids: Graph, root: Node, walk: seq<Node>) {
    IsWalk(kids, walk) && walk[0] == root && Distinct(walk)
  }

  /** No repetition-free walk from the root has more edges than the depth bound. */
  ghost predicate ShortPaths(q: Query, root: Node) {
    forall walk :: IsPath(q.kids, root, walk) ==> |walk| <= q.maxDepth + 1
  }

  /** The depth bound cannot bite. */
  ghost predicate DeepEnough(q: Query, root: Node) {
    q.maxNodes <= q.maxDepth || ShortPaths(q, root)
  }

  /** The search stands at the end of a path whose other nodes it has tested. */
  ghost predicate StandsAt(q: Query, root: Node, walk: seq<Node>, depth: nat, p: Progress) {
    && IsWalk(q.kids, walk) && walk[0] == root && |walk| == depth + 1
    && Distinct(walk[..depth]) && depth <= |p.tested|
    && forall m :: m in walk[..depth] ==> m in p.tested
  }

  /** What one call adds: its start is tested, and so are the children of everything it tested. */
  ghost predicate Closes(q: Query, before: Progress, after: Progress) {
    && (forall m :: m in before.tested ==> m in after.tested)
    && (forall m, k :: m in after.tested && m !in before.tested && k in q.kids(m) ==> k in after.tested)
  }

  lemma DistinctSnoc(s: seq<Node>, n: Node)
    requires Distinct(s) && n !in s
    ensures Distinct(s + [n])
  {
  }

  lemma WalkSnoc(kids: Graph, walk: seq<Node>, k: Node)
    requires IsWalk(kids, walk) && k in kids(walk[|walk| - 1])
    ensures IsWalk(kids, walk + [k])
  {
  }

  /** A node at the depth bound that is still to be tested has no child off the path to it. */
  lemma NothingBelowBound(q: Query, root: Node, walk: seq<Node>, depth: nat, p: Progress)
    requires DeepEnough(q, root) && StandsAt(q, root, walk, depth, p)
    requires walk[depth] !in p.tested && |p.tested| < q.maxNodes && depth >= q.maxDepth
    ensures forall k :: k in q.kids(walk[depth]) ==> k in p.tested || k == walk[depth]
  {
    assert walk == walk[..depth] + [walk[depth]];
    DistinctSnoc(walk[..depth], walk[depth]);
    forall k | k in q.kids(walk[depth]) ensures k in p.tested || k == walk[depth] {
      if k !in walk {
        WalkSnoc(q.kids, walk, k);
        DistinctSnoc(walk, k);
        assert IsPath(q.kids, root, walk + [k]);
      }
    }
  }

  /** From a node just tested the search steps to each of its children. */
  lemma StandsAtChild(q: Query, root: Node, walk: seq<Node>, depth: nat, p: Progress, after: Progress, k: Node)
    requires StandsAt(q, root, walk, depth, p) && walk[depth] !in p.tested && k in q.kids(walk[depth])
    requires (forall m :: m in p.tested || m == walk[depth] ==> m in after.tested) && |p.tested| < |after.tested|
    ensures StandsAt(q, root, walk + [k], depth + 1, after)
  {
    assert walk == walk[..depth] + [walk[depth]];
    DistinctSnoc(walk[..depth], walk[depth]);
    WalkSnoc(q.kids, walk, k);
    assert (walk + [k])[..depth + 1] == walk;
  }

  lemma {:induction false} SearchCloses(
    q: Query, root: Node, walk: seq<Node>, n: Node, depth: nat, p: Progress)
    requires DeepEnough(q, root) && Sound(q, p) && StandsAt(q, root, walk, depth, p) && walk[depth] == n
    ensures
      var r := Search(q, n, depth, p);
      Sound(q, r) && |p.tested| <= |r.tested| && (!Done(q, r) ==> n in r.tested && Closes(q, p, r))
    decreases q.maxDepth - depth, 1, 0
  {
    SearchSound(q, n, depth, p);
    if !(Done(q, p) || n in p.tested || q.matches(n)) {
      if depth >= q.maxDepth {
        NothingBelowBound(q, root, walk, depth, p);
      } else {
        var p1 := Test(q, n, p);
        SearchAllCloses(q, root, walk, q.kids(n), depth, p, p1);
      }
    }
  }

  lemma {:induction false} SearchAllCloses(
    q: Query, root: Node, walk: seq<Node>, nodes: seq<Node>, depth: nat, before: Progress, p: Progress)
    requires depth < q.maxDepth && DeepEnough(q, root) && Sound(q, p)
    requires StandsAt(q, root, walk, depth, before) && walk[depth] !in before.tested
    requires forall k :: k in nodes ==> k in q.kids(walk[depth])
    requires (forall m :: m in before.tested || m == walk[depth] ==> m in p.tested) && |before.tested| < |p.tested|
    ensures
      var r := SearchAll(q, nodes, depth + 1, p);
      && Sound(q, r) && |p.tested| <= |r.tested|
      && (!Done(q, r) ==> (forall m :: m in nodes ==> m in r.tested) && Closes(q, p, r))
    decreases q.maxDepth - (depth + 1), 2, |nodes|
  {
    if nodes != [] {
      var mid := Search(q, nodes[0], depth + 1, p);
      StandsAtChild(q, root, walk, depth, before, p, nodes[0]);
      SearchCloses(q, root, walk + [nodes[0]], nodes[0], depth + 1, p);
      if Done(q, mid) {
        SearchAllDone(q, nodes[1..], depth + 1, mid);
      } else {
        SearchAllCloses(q, root, walk, nodes[1..], depth, before, mid);
      }
    }
  }

  lemma {:induction false} ClosedHoldsWalk(kids: Graph, nodes: seq<Node>, walk: seq<Node>)
    requires IsWalk(kids, walk) && walk[0] in nodes
    requires forall m, k :: m in nodes && k in kids(m) ==> k in nodes
    ensures walk[|walk| - 1] in nodes
    decreases |walk|
  {
    if |walk| > 1 {
      var front := walk[..|walk| - 1];
      assert IsWalk(kids, front);
      ClosedHoldsWalk(kids, nodes, front);
      assert walk[|front| - 1 + 1] in kids(walk[|front| - 1]);
    }
  }

  lemma UnfinishedIsAll(q: Query, root: Node)
    requires DeepEnough(q, root)
    ensures
      var r := Search(q, root, 0, START);
      Sound(q, r) && (!Done(q, r) ==> forall m :: Reachable(q.kids, root, m) ==> m in r.tested)
  {
    var r := Search(q, root, 0, START);
    assert [root][..0] == [];
    SearchCloses(q, root, [root], root, 0, START);
    if !Done(q, r) {
      forall m | Reachable(q.kids, root, m) ensures m in r.tested {
        var walk :| IsWalk(q.kids, walk) && walk[0] == root && walk[|walk| - 1] == m;
        ClosedHoldsWalk(q.kids, r.tested, walk);
      }
    }
  }

  ghost predicate SomeMatch(q: Query, root: Node) {
    exists m :: Reachable(q.kids, root, m) && q.matches(m)
  }

  /** On any graph, cyclic, shared or infinite: when the depth bound is at least the node budget, a
    search that finds nothing has used up the budget, or there is nothing to find. */
  lemma NothingMissedUnlessSpent(q: Query, root: Node)
    requires q.maxNodes <= q.maxDepth
    ensures
      var r := Search(q, root, 0, START);
      r.found.None? ==> |r.tested| == q.maxNodes || !SomeMatch(q, root)
  {
    var r := Search(q, root, 0, START);
    UnfinishedIsAll(q, root);
    if !Done(q, r) {
      forall m | Reachable(q.kids, root, m) ensures !q.matches(m) {
        assert m in r.tested;
      }
    }
  }

  /** A walk of at most so many edges leads from one node to the other. */
  ghost predicate ReachableWithin(kids: Graph, from: Node, to: Node, edges: nat) {
    exists walk :: IsWalk(kids, walk) && walk[0] == from && walk[|walk| - 1] == to && |walk| <= edges + 1
  }

  ghost predicate AllWithin(kids: Graph, from: Node, nodes: seq<Node>, edges: nat) {
    forall m :: m in nodes ==> ReachableWithin(kids, from, m, edges)
  }

  lemma StepWithin(kids: Graph, from: Node, n: Node, k: Node, edges: nat, bound: nat)
    requires ReachableWithin(kids, from, n, edges) && edges < bound
    ensures ReachableWithin(kids, from, n, bound)
    ensures k in kids(n) ==> ReachableWithin(kids, from, k, edges + 1)
  {
    var walk :| IsWalk(kids, walk) && walk[0] == from && walk[|walk| - 1] == n && |walk| <= edges + 1;
    if k in kids(n) {
      WalkSnoc(kids, walk, k);
      assert (walk + [k])[|walk|] == k;
    }
  }

  /** Every node tested is at most `maxDepth` edges away. */
  lemma {:induction false} SearchStaysWithin(q: Query, root: Node, n: Node, depth: nat, p: Progress)
    requires depth <= q.maxDepth && ReachableWithin(q.kids, root, n, depth)
    requires AllWithin(q.kids, root, p.tested, q.maxDepth)
    ensures AllWithin(q.kids, root, Search(q, n, depth, p).tested, q.maxDepth)
    decreases q.maxDepth - depth, 1, 0
  {
    if depth < q.maxDepth {
      StepWithin(q.kids, root, n, n, depth, q.maxDepth);
    }
    if !(Done(q, p) || n in p.tested || q.matches(n) || depth >= q.maxDepth) {
      forall k | k in q.kids(n) ensures ReachableWithin(q.kids, root, k, depth + 1) {
        StepWithin(q.kids, root, n, k, depth, q.maxDepth);
      }
      SearchAllStaysWithin(q, root, q.kids(n), depth + 1, Test(q, n, p));
    }
  }

  lemma {:induction false} SearchAllStaysWithin(q: Query, root: Node, nodes: seq<Node>, depth: nat, p: Progress)
    requires depth <= q.maxDepth && AllWithin(q.kids, root, nodes, depth)
    requires AllWithin(q.kids, root, p.tested, q.maxDepth)
    ensures AllWithin(q.kids, root, SearchAll(q, nodes, depth, p).tested, q.maxDepth)
    decreases q.maxDepth - depth, 2, |nodes|
  {
    if nodes != [] {
      SearchStaysWithin(q, root, nodes[0], depth, p);
      SearchAllStaysWithin(q, root, nodes[1..], depth, Search(q, nodes[0], depth, p));
    }
  }

  lemma TestedWithin(q: Query, root: Node)
    ensures AllWithin(q.kids, root, Search(q, root, 0, START).tested, q.maxDepth)
  {
    assert IsWalk(q.kids, [root]);
    assert ReachableWithin(q.kids, root, root, 0);
    SearchStaysWithin(q, root, root, 0, START);
  }

  /** On any graph a node that is found matches, and is at most `maxDepth` edges away. */
  lemma FoundIsNear(q: Query, root: Node)
    ensures
      var r := Search(q, root, 0, START);
      r.found.Some? ==> q.matches(r.found.value) && ReachableWithin(q.kids, root, r.found.value, q.maxDepth)
  {
    SearchSound(q, root, 0, START);
    TestedWithin(q, root);
    var r := Search(q, root, 0, START);
    assert r.found.Some? ==> r.found.value in r.tested;
  }

  /** Once every node of a closed set has been tested, nothing else can be reached. */
  lemma WholeWorld(q: Query, root: Node, world: set<Node>, tested: seq<Node>)
    requires Closed(q.kids, world) && root in world && Distinct(tested) && |tested| >= |world|
    requires forall m :: m in tested ==> m in world
    ensures forall m :: Reachable(q.kids, root, m) ==> m in tested
  {
    var all := ElementsOf(tested);
    DistinctCount(tested);
    SubsetSize(all, world);
    forall m | Reachable(q.kids, root, m) ensures m in tested {
      var walk :| IsWalk(q.kids, walk) && walk[0] == root && walk[|walk| - 1] == m;
      forall n, k | n in tested && k in q.kids(n) ensures k in tested {
        assert n in all && k in all;
      }
      assert root in all;
      ClosedHoldsWalk(q.kids, tested, walk);
    }
  }

  lemma InWorld(kids: Graph, world: set<Node>, nodes: seq<Node>, root: Node, edges: nat)
    requires Closed(kids, world) && root in world && AllWithin(kids, root, nodes, edges)
    ensures forall m :: m in nodes ==> m in world
  {
    forall m | m in nodes ensures m in world {
      var walk :| IsWalk(kids, walk) && walk[0] == root && walk[|walk| - 1] == m;
      WalkInWorld(kids, world, walk);
    }
  }

  lemma {:induction false} WalkInWorld(kids: Graph, world: set<Node>, walk: seq<Node>)
    requires Closed(kids, world) && IsWalk(kids, walk) && walk[0] in world
    ensures forall m :: m in walk ==> m in world
    decreases |walk|
  {
    if |walk| > 1 {
      var front, last := walk[..|walk| - 1], walk[|walk| - 1];
      assert walk == front + [last] && IsWalk(kids, front);
      WalkInWorld(kids, world, front);
      var before := walk[|front| - 1];
      assert front[|front| - 1] == before && before in front;
      assert walk[|front| - 1 + 1] in kids(before);
      assert last in kids(before) && before in world;
    }
  }

  /** On any graph, cyclic or shared, with no more nodes than the node budget and no repetition-free
    walk from the root longer than the depth bound, the search finds a match exactly when one can be
    reached. */
  lemma FindsIffReachable(q: Query, root: Node, world: set<Node>)
    requires Closed(q.kids, world) && root in world && |world| <= q.maxNodes && ShortPaths(q, root)
    ensures Search(q, root, 0, START).found.Some? <==> SomeMatch(q, root)
  {
    var r := Search(q, root, 0, START);
    UnfinishedIsAll(q, root);
    if r.found.Some? {
      FoundIsNear(q, root);
    } else {
      if Done(q, r) {
        TestedWithin(q, root);
        InWorld(q.kids, world, r.tested, root, q.maxDepth);
        WholeWorld(q, root, world, r.tested);
      }
      forall m | Reachable(q.kids, root, m) ensures !q.matches(m) {
        assert m in r.tested;
      }
    }
  }

  /** In particular a graph with no more nodes than both budgets. */
  lemma SmallGraphsHaveShortPaths(q: Query, root: Node, world: set<Node>)
    requires Closed(q.kids, world) && root in world && |world| <= q.maxDepth + 1
    ensures ShortPaths(q, root)
  {
    forall walk | IsPath(q.kids, root, walk) ensures |walk| <= q.maxDepth + 1 {
      WalkInWorld(q.kids, world, walk);
      DistinctCount(walk);
      forall m | m in ElementsOf(walk) ensures m in world {
        assert m in walk;
      }
      SubsetSize(ElementsOf(walk), world);
    }
  }

  // ----- The source's loop

  datatype Frame = Frame(node: Node, depth: nat)

  /** What popping the whole stack, top last, would do. */
  function Unwind(q: Query, stack: seq<Frame>, p: Progress): Progress
    decreases |stack|
  {
    if stack == [] then p
    else
      var top := stack[|stack| - 1];
      Unwind(q, stack[..|stack| - 1], Search(q, top.node, top.depth, p))
  }

  function PushReversed(stack: seq<Frame>, nodes: seq<Node>, depth: nat): seq<Frame>
    decreases |nodes|
  {
    if nodes == [] then stack else PushReversed(stack, nodes[1..], depth) + [Frame(nodes[0], depth)]
  }

  lemma {:induction false} UnwindPushed(q: Query, stack: seq<Frame>, nodes: seq<Node>, depth: nat, p: Progress)
    requires depth <= q.maxDepth
    ensures Unwind(q, PushReversed(stack, nodes, depth), p) == Unwind(q, stack, SearchAll(q, nodes, depth, p))
    decreases |nodes|
  {
    if nodes != [] {
      var pushed := PushReversed(stack, nodes, depth);
      assert pushed[..|pushed| - 1] == PushReversed(stack, nodes[1..], depth);
      UnwindPushed(q, stack, nodes[1..], depth, Search(q, nodes[0], depth, p));
    }
  }

  lemma {:induction false} UnwindDone(q: Query, stack: seq<Frame>, p: Progress)
    requires Done(q, p)
    ensures Unwind(q, stack, p) == p
    decreases |stack|
  {
    if stack != [] {
      UnwindDone(q, stack[..|stack| - 1], p);
    }
  }

  lemma SearchMeets(q: Query, root: Node)
    ensures Sound(q, Search(q, root, 0, START))
    ensures Distinct(Preorder(q, root, 0)) ==>
      FindsFirst(q, Take(Preorder(q, root, 0), q.maxNodes), Search(q, root, 0, START).found)
  {
    SearchSound(q, root, 0, START);
    if Distinct(Preorder(q, root, 0)) {
      SearchOnTree(q, root);
    }
  }

  /** The loop is the recursive search on any graph, and the first match of the preorder on a
    tree.  `tested` records the calls of the predicate. */
  method FirstDescendant(q: Query, root: Node) returns (found: Option<Node>, ghost tested: seq<Node>)
    ensures Progress(tested, found) == Search(q, root, 0, START)
    ensures Sound(q, Progress(tested, found))
    ensures Distinct(Preorder(q, root, 0)) ==> FindsFirst(q, Take(Preorder(q, root, 0), q.maxNodes), found)
  {
    SearchMeets(q, root);
    ghost var goal := Search(q, root, 0, START);
    var visitedCount: nat := 0;
    var stack := [Frame(root, 0)];
    var seen: set<Node> := {};
    tested := [];
    while stack != [] && visitedCount < q.maxNodes
      invariant visitedCount == |tested| <= q.maxNodes
      invariant forall n :: n in seen <==> n in tested
      invariant Unwind(q, stack, Progress(tested, None)) == goal
      decreases q.maxNodes - visitedCount, |stack|
    {
      var Frame(node, depth) := stack[|stack| - 1];
      stack := stack[..|stack| - 1];
      if node in seen {
        continue;
      }
      seen := seen + {node};
      visitedCount := visitedCount + 1;
      tested := tested + [node];
      if q.matches(node) {
        UnwindDone(q, stack, Progress(tested, Some(node)));
        return Some(node), tested;
      }
      if depth >= q.maxDepth {
        continue;
      }
      var childItems := q.kids(node);
      ghost var below := stack;
      assert childItems[|childItems|..] == [];
      for i := |childItems| downto 0
        invariant stack == PushReversed(below, childItems[i..], depth + 1)
      {
        assert childItems[i..][1..] == childItems[i + 1..];
        stack := stack + [Frame(childItems[i], depth + 1)];
      }
      assert childItems[0..] == childItems;
      UnwindPushed(q, below, childItems, depth + 1, Progress(tested, None));
    }
    if visitedCount >= q.maxNodes {
      UnwindDone(q, stack, Progress(tested, None));
    }
    return None, tested;
  }
}
