/** What a snapshot shows, said of the tree alone (native/computer-use-linux/runtime.py,
  `should_elide`, `suppress_children`, `walk`): which nodes have a record, in what order, at what
  depth, and with what in it. */
module SnapshotContents {
  import opened Wrappers
  import opened AccessibilityTree
  import opened IndexPaths
  import opened RenderedLines
  import opened TreeRendering

  // ----- Which nodes are shown

  /** A container that says nothing and holds at most one child. */
  predicate Bare(t: Texts, n: Node) {
    var role := t.lower(n.attributes.role);
    && (role == "panel" || role == "filler" || role == "unknown" || role == "section")
    && n.attributes.name == "" && n.attributes.automationId == "" && n.attributes.value == ""
    && t.meaningful(n.attributes.actions) == []
    && t.summary(n) == None
    && |n.children| <= 1
  }

  /** The node's own line stands for its children: it has a summary, or it is a compact control with a
    label. */
  predicate Speaks(t: Texts, n: Node) {
    var role := t.lower(n.attributes.role);
    var summary := match t.summary(n) case None => "" case Some(text) => text;
    || summary != ""
    || ((n.attributes.name != "" || n.attributes.automationId != ""
         || t.sanitize(n.attributes.value) != "" || t.sanitize(summary) != "")
        && (role == "button" || role == "check box" || role == "checkbox" || role == "combo box"
            || role == "heading" || role == "link" || role == "menu item" || role == "page tab"
            || role == "push button" || role == "radio button"))
  }

  /** The path `p` leads from `node` to `found`, which is not bare; no node on the way, unless it is
    bare itself, speaks for its children; and `level` of them are not bare. */
  ghost predicate Shown(t: Texts, node: Node, p: IndexPath, found: Node, level: nat)
    decreases |p|, 0
  {
    if p == [] then !Bare(t, node) && found == node && level == 0
    else
      && (Bare(t, node) || !Speaks(t, node))
      && exists c :: c in node.children && c.index == p[0] && ShownBelow(t, node, c.node, p[1..], found, level)
  }

  ghost predicate ShownBelow(t: Texts, node: Node, child: Node, rest: IndexPath, found: Node, level: nat)
    decreases |rest|, 1
  {
    if Bare(t, node) then Shown(t, child, rest, found, level)
    else level > 0 && Shown(t, child, rest, found, level - 1)
  }

  ghost predicate InDocumentOrder(list: seq<Entry>) {
    forall i, j :: 0 <= i < j < |list| ==> DocBefore(list[i].path, list[j].path)
  }

  predicate WithinDepth(depth: nat, maxDepth: Option<nat>) {
    maxDepth.None? || depth <= maxDepth.value
  }

  /** The entry is one of those shown of the subtree of `node`, which stands at `base` and `depth`. */
  ghost predicate IsShown(t: Texts, node: Node, base: IndexPath, depth: nat, maxDepth: Option<nat>, e: Entry) {
    && depth <= e.depth && WithinDepth(e.depth, maxDepth)
    && base <= e.path && Shown(t, node, e.path[|base|..], e.node, e.depth - depth)
  }

  /** All that is shown of the subtree, in document order. */
  ghost predicate Depicts(
    t: Texts, node: Node, base: IndexPath, depth: nat, maxDepth: Option<nat>, list: seq<Entry>)
  {
    && (forall e :: e in list <==> IsShown(t, node, base, depth, maxDepth, e))
    && InDocumentOrder(list)
  }

  // ----- The renderer's visits are what is shown

  lemma PolicyMeans(t: Texts, n: Node)
    ensures RuntimePolicy(t).elides(n) <==> Bare(t, n)
    ensures RuntimePolicy(t).hidesChildren(n) <==> Speaks(t, n)
  {
  }

  ghost predicate ShownAmong(
    t: Texts, children: seq<Child>, base: IndexPath, depth: nat, maxDepth: Option<nat>, e: Entry)
  {
    exists c :: c in children && IsShown(t, c.node, base + [c.index], depth, maxDepth, e)
  }

  /** Below its root a subtree shows what its children show, one level deeper unless it is bare. */
  lemma ShownUnfolds(t: Texts, node: Node, base: IndexPath, depth: nat, maxDepth: Option<nat>, e: Entry)
    ensures IsShown(t, node, base, depth, maxDepth, e) <==>
      || (WithinDepth(depth, maxDepth) && !Bare(t, node) && e == Entry(node, depth, base))
      || ((Bare(t, node) || !Speaks(t, node))
          && ShownAmong(t, node.children, base, if Bare(t, node) then depth else depth + 1, maxDepth, e))
  {
    var below := if Bare(t, node) then depth else depth + 1;
    forall c | c in node.children
      ensures IsShown(t, c.node, base + [c.index], below, maxDepth, e) <==>
        && depth <= e.depth && WithinDepth(e.depth, maxDepth)
        && base <= e.path && |e.path| > |base| && e.path[|base|..][0] == c.index
        && ShownBelow(t, node, c.node, e.path[|base|..][1..], e.node, e.depth - depth)
    {
      PathBelow(base, e.path, c.index);
    }
    assert e.path == base ==> e.path[|base|..] == [];
    assert base <= e.path && e.path[|base|..] == [] ==> e.path == base;
  }

  lemma {:induction false} EntriesHas(visits: seq<Visit>, e: Entry)
    ensures e in Entries(visits) <==> Rendered(e) in visits
  {
    if visits != [] {
      EntriesHas(visits[1..], e);
      assert visits == [visits[0]] + visits[1..];
    }
  }

  lemma TooDeepShowsNothing(t: Texts, node: Node, base: IndexPath, depth: nat, maxDepth: Option<nat>, e: Entry)
    requires !WithinDepth(depth, maxDepth)
    ensures !IsShown(t, node, base, depth, maxDepth, e)
  {
  }

  lemma {:induction false} VisitsShow(
    t: Texts, node: Node, depth: nat, base: IndexPath, maxDepth: Option<nat>, e: Entry)
    ensures Rendered(e) in Visits(RuntimePolicy(t), node, depth, base, maxDepth)
       <==> IsShown(t, node, base, depth, maxDepth, e)
    decreases node, 0
  {
    PolicyMeans(t, node);
    ShownUnfolds(t, node, base, depth, maxDepth, e);
    if !WithinDepth(depth, maxDepth) {
      TooDeepShowsNothing(t, node, base, depth, maxDepth, e);
    } else {
      VisitsAllShow(t, node.children, if Bare(t, node) then depth else depth + 1, base, maxDepth, e);
    }
  }

  lemma {:induction false} VisitsAllShow(
    t: Texts, children: seq<Child>, depth: nat, base: IndexPath, maxDepth: Option<nat>, e: Entry)
    ensures Rendered(e) in VisitsAll(RuntimePolicy(t), children, depth, base, maxDepth)
       <==> ShownAmong(t, children, base, depth, maxDepth, e)
    decreases children, 1
  {
    if children != [] {
      var c := children[0];
      assert c.node < children[0] && children == [c] + children[1..];
      VisitsShow(t, c.node, depth, base + [c.index], maxDepth, e);
      VisitsAllShow(t, children[1..], depth, base, maxDepth, e);
    }
  }

  // ----- In document order

  lemma OrderConcat(a: seq<Entry>, b: seq<Entry>)
    requires InDocumentOrder(a) && InDocumentOrder(b)
    requires forall x, y :: x in a && y in b ==> DocBefore(x.path, y.path)
    ensures InDocumentOrder(a + b)
  {
    forall i, j | 0 <= i < j < |a + b| ensures DocBefore((a + b)[i].path, (a + b)[j].path) {
      assert i < |a| ==> (a + b)[i] in a;
      assert j >= |a| ==> (a + b)[j] in b;
    }
  }

  ghost predicate AllUnderPath(list: seq<Entry>, base: IndexPath) {
    forall e :: e in list ==> base <= e.path
  }

  lemma EntriesUnder(t: Texts, node: Node, depth: nat, base: IndexPath, maxDepth: Option<nat>)
    ensures AllUnderPath(Entries(Visits(RuntimePolicy(t), node, depth, base, maxDepth)), base)
  {
    var visits := Visits(RuntimePolicy(t), node, depth, base, maxDepth);
    forall e | e in Entries(visits) ensures base <= e.path {
      EntriesHas(visits, e);
      VisitsShow(t, node, depth, base, maxDepth, e);
    }
  }

  lemma LaterSiblings(t: Texts, children: seq<Child>, depth: nat, base: IndexPath, maxDepth: Option<nat>, e: Entry)
    requires Ascending(children) && children != []
    requires e in Entries(VisitsAll(RuntimePolicy(t), children[1..], depth, base, maxDepth))
    ensures exists j :: children[0].index < j && base + [j] <= e.path
  {
    EntriesHas(VisitsAll(RuntimePolicy(t), children[1..], depth, base, maxDepth), e);
    VisitsAllShow(t, children[1..], depth, base, maxDepth, e);
    var c :| c in children[1..] && IsShown(t, c.node, base + [c.index], depth, maxDepth, e);
    var k :| 0 <= k < |children[1..]| && children[1..][k] == c;
    assert children[k + 1] == c;
  }

  lemma {:induction false} VisitsInOrder(t: Texts, node: Node, depth: nat, base: IndexPath, maxDepth: Option<nat>)
    requires WellFormed(node)
    ensures InDocumentOrder(Entries(Visits(RuntimePolicy(t), node, depth, base, maxDepth)))
    decreases node, 0
  {
    if WithinDepth(depth, maxDepth) {
      var below := if RuntimePolicy(t).elides(node) then depth else depth + 1;
      VisitsAllInOrder(t, node.children, below, base, maxDepth);
      RootFirst(t, node, depth, base, maxDepth);
    }
  }

  lemma RootFirst(t: Texts, node: Node, depth: nat, base: IndexPath, maxDepth: Option<nat>)
    requires WithinDepth(depth, maxDepth)
    requires
      var below := if RuntimePolicy(t).elides(node) then depth else depth + 1;
      InDocumentOrder(Entries(VisitsAll(RuntimePolicy(t), node.children, below, base, maxDepth)))
    ensures InDocumentOrder(Entries(Visits(RuntimePolicy(t), node, depth, base, maxDepth)))
  {
    var policy := RuntimePolicy(t);
    var visits := Visits(policy, node, depth, base, maxDepth);
    if policy.elides(node) {
      assert visits[1..] == VisitsAll(policy, node.children, depth, base, maxDepth);
    } else if policy.hidesChildren(node) {
      assert visits[1..] == [] && Entries(visits[1..]) == [];
    } else {
      var rest := VisitsAll(policy, node.children, depth + 1, base, maxDepth);
      assert visits[1..] == rest;
      forall e | e in Entries(rest) ensures DocBefore(base, e.path) {
        EntriesHas(rest, e);
        VisitsAllShow(t, node.children, depth + 1, base, maxDepth, e);
        var c :| c in node.children && IsShown(t, c.node, base + [c.index], depth + 1, maxDepth, e);
        PathBelow(base, e.path, c.index);
        RootBefore(base, e.path);
      }
      OrderConcat([Entry(node, depth, base)], Entries(rest));
    }
  }

  lemma {:induction false} VisitsAllInOrder(
    t: Texts, children: seq<Child>, depth: nat, base: IndexPath, maxDepth: Option<nat>)
    requires Ascending(children) && forall c :: c in children ==> WellFormed(c.node)
    ensures InDocumentOrder(Entries(VisitsAll(RuntimePolicy(t), children, depth, base, maxDepth)))
    decreases children, 1
  {
    if children != [] {
      var c := children[0];
      assert c.node < children[0] && c in children;
      var first := Visits(RuntimePolicy(t), c.node, depth, base + [c.index], maxDepth);
      var later := VisitsAll(RuntimePolicy(t), children[1..], depth, base, maxDepth);
      VisitsInOrder(t, c.node, depth, base + [c.index], maxDepth);
      VisitsAllInOrder(t, children[1..], depth, base, maxDepth);
      EntriesUnder(t, c.node, depth, base + [c.index], maxDepth);
      forall x, y | x in Entries(first) && y in Entries(later) ensures DocBefore(x.path, y.path) {
        LaterSiblings(t, children, depth, base, maxDepth, y);
        var j :| c.index < j && base + [j] <= y.path;
        SiblingBefore(base, c.index, j, x.path, y.path);
      }
      EntriesConcat(first, later);
      OrderConcat(Entries(first), Entries(later));
    }
  }

  /** The entries that rendering visits are exactly what is shown, in document order. */
  lemma VisitsDepict(t: Texts, node: Node, depth: nat, base: IndexPath, maxDepth: Option<nat>)
    requires WellFormed(node)
    ensures Depicts(t, node, base, depth, maxDepth, Entries(Visits(RuntimePolicy(t), node, depth, base, maxDepth)))
  {
    var visits := Visits(RuntimePolicy(t), node, depth, base, maxDepth);
    forall e ensures e in Entries(visits) <==> IsShown(t, node, base, depth, maxDepth, e) {
      EntriesHas(visits, e);
      VisitsShow(t, node, depth, base, maxDepth, e);
    }
    VisitsInOrder(t, node, depth, base, maxDepth);
  }

  // ----- What a snapshot contains

  /** A record has its number, the path of its node and what the node says of itself. */
  predicate RecordsNode(r: Record, n: Node, index: nat, path: IndexPath) {
    && r.index == index && r.runtimeId == path
    && r.name == n.attributes.name && r.controlType == n.attributes.role
    && r.automationId == n.attributes.automationId && r.value == n.attributes.value
    && r.isSelected == n.attributes.isSelected && r.actions == n.attributes.actions
  }

  /** A line has as many tabs as the node has shown nodes above it, then its number and its text. */
  predicate LineShows(t: Texts, line: string, n: Node, index: nat, depth: nat) {
    && |line| >= depth && (forall i :: 0 <= i < depth ==> line[i] == '\t')
    && line[depth..] == Digits(index) + t.describe(n)
  }

  /** The output has a record and a line for each of the first 1200 entries. */
  ghost predicate ShowsFirst(t: Texts, list: seq<Entry>, out: Output) {
    && |out.records| == |out.lines| == (if |list| <= 1200 then |list| else 1200)
    && forall i :: 0 <= i < |out.records| ==>
         && RecordsNode(out.records[i], list[i].node, i, list[i].path)
         && LineShows(t, out.lines[i], list[i].node, i, list[i].depth)
  }

  /** Without tab compaction: the first 1200 of what is shown down to level 64, numbered in document
    order; and unless the flag says that something was cut, that is all there is to show. */
  ghost predicate ShowsWindow(t: Texts, windowIndex: nat, window: Node, out: Output) {
    && (exists list :: Depicts(t, window, [windowIndex], 0, Some(64), list) && ShowsFirst(t, list, out))
    && (!out.truncated ==>
          forall p :: (exists r :: r in out.records && r.runtimeId == [windowIndex] + p)
                 <==> (exists n, level :: Shown(t, window, p, n, level)))
  }

  lemma ListIsShown(t: Texts, windowIndex: nat, window: Node, config: Config, out: Output)
    requires WellFormed(window) && CompactionOff(config) && config.policy == RuntimePolicy(t)
    requires config.maxNodes == 1200 && config.maxDepth == 64
    requires out == Render(config, window, 0, [windowIndex], EMPTY)
    ensures exists list :: Depicts(t, window, [windowIndex], 0, Some(64), list) && ShowsFirst(t, list, out)
  {
    var list := Entries(Visits(config.policy, window, 0, [windowIndex], Some(64)));
    VisitsDepict(t, window, 0, [windowIndex], Some(64));
    FromEmpty(config, window, [windowIndex]);
    forall i | 0 <= i < |out.records|
      ensures RecordsNode(out.records[i], list[i].node, i, list[i].path)
      ensures LineShows(t, out.lines[i], list[i].node, i, list[i].depth)
    {
      ElementLineShows(t, list[i].node, i, list[i].depth);
    }
  }

  lemma ElementLineShows(t: Texts, n: Node, index: nat, depth: nat)
    ensures LineShows(t, ElementLine(depth, index, t.describe(n)), n, index, depth)
  {
    var line := ElementLine(depth, index, t.describe(n));
    assert line == Indent(depth) + (Digits(index) + t.describe(n));
    forall i | 0 <= i < depth ensures line[i] == '\t' {
      assert line[i] == Indent(depth)[i];
    }
  }

  lemma RecordIsShown(t: Texts, w: nat, window: Node, all: seq<Entry>, records: seq<Record>, p: IndexPath, r: Record)
    requires Depicts(t, window, [w], 0, None, all) && records == Records(all, 0)
    requires r in records && r.runtimeId == [w] + p
    ensures exists n, level :: Shown(t, window, p, n, level)
  {
    var i :| 0 <= i < |records| && records[i] == r;
    var e := all[i];
    assert e in all && IsShown(t, window, [w], 0, None, e);
    assert e.path == [w] + p && ([w] + p)[1..] == p;
    assert Shown(t, window, p, e.node, e.depth);
  }

  lemma ShownHasRecord(
    t: Texts, w: nat, window: Node, all: seq<Entry>, records: seq<Record>, p: IndexPath, n: Node, level: nat)
    requires Depicts(t, window, [w], 0, None, all) && records == Records(all, 0)
    requires Shown(t, window, p, n, level)
    ensures exists r :: r in records && r.runtimeId == [w] + p
  {
    var e := Entry(n, level, [w] + p);
    assert ([w] + p)[1..] == p && ([w] + p)[..1] == [w];
    assert IsShown(t, window, [w], 0, None, e);
    var i :| 0 <= i < |all| && all[i] == e;
    assert records[i].runtimeId == [w] + p && records[i] in records;
  }

  lemma WholeIsShown(t: Texts, windowIndex: nat, window: Node, all: seq<Entry>, records: seq<Record>, p: IndexPath)
    requires Depicts(t, window, [windowIndex], 0, None, all) && records == Records(all, 0)
    ensures (exists r :: r in records && r.runtimeId == [windowIndex] + p)
       <==> (exists n, level :: Shown(t, window, p, n, level))
  {
    if r :| r in records && r.runtimeId == [windowIndex] + p {
      RecordIsShown(t, windowIndex, window, all, records, p, r);
    }
    if n, level: nat :| Shown(t, window, p, n, level) {
      ShownHasRecord(t, windowIndex, window, all, records, p, n, level);
    }
  }

  lemma RenderShowsWindow(t: Texts, windowIndex: nat, window: Node, config: Config)
    requires WellFormed(window) && CompactionOff(config) && config.policy == RuntimePolicy(t)
    requires config.maxNodes == 1200 && config.maxDepth == 64
    ensures ShowsWindow(t, windowIndex, window, Render(config, window, 0, [windowIndex], EMPTY))
  {
    var out := Render(config, window, 0, [windowIndex], EMPTY);
    ListIsShown(t, windowIndex, window, config, out);
    if !out.truncated {
      NotTruncatedIsWhole(config, window, [windowIndex]);
      VisitsDepict(t, window, 0, [windowIndex], None);
      var all := Entries(Visits(config.policy, window, 0, [windowIndex], None));
      forall p
        ensures (exists r :: r in out.records && r.runtimeId == [windowIndex] + p)
           <==> (exists n, level :: Shown(t, window, p, n, level))
      {
        WholeIsShown(t, windowIndex, window, all, out.records, p);
      }
    }
  }

  /** The record is that of a node shown in the window, and is looked up as that very node. */
  ghost predicate FoundAgain(t: Texts, app: Node, windowIndex: nat, window: Node, saved: Record) {
    exists e :: IsShown(t, window, [windowIndex], 0, Some(64), e)
      && RecordsNode(saved, e.node, saved.index, e.path) && Lookup(app, Some(saved)) == Some(e.node)
  }

  lemma OriginIsShown(t: Texts, app: Node, windowIndex: nat, window: Node, saved: Record)
    requires ResolvesToOrigin(app, saved, Visits(RuntimePolicy(t), window, 0, [windowIndex], Some(64)))
    ensures FoundAgain(t, app, windowIndex, window, saved)
  {
    var visits := Visits(RuntimePolicy(t), window, 0, [windowIndex], Some(64));
    var v :| v in visits && IsOrigin(app, saved, v);
    VisitsShow(t, window, 0, [windowIndex], Some(64), v.entry);
    assert v == Rendered(v.entry);
  }

  // ----- When nothing is cut

  function NodeCount(node: Node): nat
    decreases node, 0
  {
    1 + NodeCountAll(node.children)
  }

  function NodeCountAll(children: seq<Child>): nat
    decreases children, 1
  {
    if children == [] then 0
    else
      assert children[0].node < children[0];
      NodeCount(children[0].node) + NodeCountAll(children[1..])
  }

  lemma {:induction false} VisitsAtMost(policy: Policy, node: Node, depth: nat, base: IndexPath, maxDepth: Option<nat>)
    ensures |Visits(policy, node, depth, base, maxDepth)| <= NodeCount(node)
    decreases node, 0
  {
    if WithinDepth(depth, maxDepth) {
      VisitsAllAtMost(policy, node.children, if policy.elides(node) then depth else depth + 1, base, maxDepth);
    }
  }

  lemma {:induction false} VisitsAllAtMost(
    policy: Policy, children: seq<Child>, depth: nat, base: IndexPath, maxDepth: Option<nat>)
    ensures |VisitsAll(policy, children, depth, base, maxDepth)| <= NodeCountAll(children)
    decreases children, 1
  {
    if children != [] {
      var c := children[0];
      assert c.node < children[0];
      VisitsAtMost(policy, c.node, depth, base + [c.index], maxDepth);
      VisitsAllAtMost(policy, children[1..], depth, base, maxDepth);
    }
  }

  lemma {:induction false} EntriesAtMost(visits: seq<Visit>)
    ensures |Entries(visits)| <= |visits|
  {
    if visits != [] {
      EntriesAtMost(visits[1..]);
    }
  }

  /** No call is too deep if the subtree has no more nodes than levels are left. */
  lemma {:induction false} NotTooDeep(policy: Policy, node: Node, depth: nat, base: IndexPath, maxDepth: nat)
    requires depth + NodeCount(node) <= maxDepth + 1
    ensures TooDeep !in Visits(policy, node, depth, base, Some(maxDepth))
    decreases node, 0
  {
    NotTooDeepAll(policy, node.children, if policy.elides(node) then depth else depth + 1, base, maxDepth);
  }

  lemma {:induction false} NotTooDeepAll(
    policy: Policy, children: seq<Child>, depth: nat, base: IndexPath, maxDepth: nat)
    requires depth + NodeCountAll(children) <= maxDepth + 1
    ensures TooDeep !in VisitsAll(policy, children, depth, base, Some(maxDepth))
    decreases children, 1
  {
    if children != [] {
      var c := children[0];
      assert c.node < children[0];
      NotTooDeep(policy, c.node, depth, base + [c.index], maxDepth);
      NotTooDeepAll(policy, children[1..], depth, base, maxDepth);
    }
  }

  /** A small window is never reported as cut. */
  lemma SmallWindowIsWhole(config: Config, window: Node, path: IndexPath)
    requires CompactionOff(config)
    requires NodeCount(window) <= config.maxNodes && NodeCount(window) <= config.maxDepth + 1
    ensures !Render(config, window, 0, path, EMPTY).truncated
  {
    var visits := Visits(config.policy, window, 0, path, Some(config.maxDepth));
    TruncatedIff(config, window, path);
    VisitsAtMost(config.policy, window, 0, path, Some(config.maxDepth));
    NotTooDeep(config.policy, window, 0, path, config.maxDepth);
    forall i | 0 <= i < |visits| ensures visits[i] != TooDeep && |Entries(visits[..i])| < config.maxNodes {
      EntriesAtMost(visits[..i]);
    }
  }
}
