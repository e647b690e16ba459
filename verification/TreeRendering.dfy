/** What rendering visits, and what the node cap leaves of it
  (native/computer-use-linux/runtime.py, `render_accessibility_tree`). */
module TreeRendering {
  import opened Wrappers
  import opened Collections
  import opened StringOps
  import opened AccessibilityTree
  import opened RenderedLines
  import TabCompaction

  /** The per-node decisions: eliding a node, hiding its children, and the text of its line
    after the element number. */
  datatype Policy = Policy(elides: Node -> bool, hidesChildren: Node -> bool, describe: Node -> string)

  /** The given text functions the decisions are made with. */
  datatype Texts = Texts(
    lower: string -> string,
    sanitize: string -> string,
    meaningful: seq<string> -> seq<string>,
    summary: Node -> Option<string>,
    describe: Node -> string
  )

  const ELIDABLE_ROLES: set<string> := {"panel", "filler", "unknown", "section"}

  const COMPACT_ROLES: set<string> := {
    "button", "check box", "checkbox", "combo box", "heading", "link", "menu item", "page tab", "push button",
    "radio button"
  }

  /** A bare container with at most one child is skipped. */
  predicate ShouldElide(texts: Texts, node: Node) {
    var a := node.attributes;
    && texts.lower(a.role) in ELIDABLE_ROLES
    && a.name == "" && a.automationId == "" && a.value == ""
    && texts.meaningful(a.actions) == []
    && texts.summary(node).None?
    && |node.children| <= 1
  }

  function SummaryText(texts: Texts, node: Node): string {
    match texts.summary(node)
    case None => ""
    case Some(text) => text
  }

  /** A summarized node, or a labelled control, stands for its children. */
  predicate HidesChildren(texts: Texts, node: Node) {
    var a := node.attributes;
    var summary := SummaryText(texts, node);
    || summary != ""
    || ((a.name != "" || a.automationId != "" || texts.sanitize(a.value) != "" || texts.sanitize(summary) != "")
        && texts.lower(a.role) in COMPACT_ROLES)
  }

  function RuntimePolicy(texts: Texts): Policy {
    Policy(node => ShouldElide(texts, node), node => HidesChildren(texts, node), texts.describe)
  }

  datatype Entry = Entry(node: Node, depth: nat, path: IndexPath)

  /** One call of `walk` when the node cap is not reached. */
  datatype Visit = Rendered(entry: Entry) | Elided | TooDeep

  /** The calls of `walk` in order; `maxDepth == None` lifts the depth cap.  An elided node hands
    its own depth to its children. */
  function Visits(policy: Policy, node: Node, depth: nat, path: IndexPath, maxDepth: Option<nat>): seq<Visit>
    decreases node, 0
  {
    if maxDepth.Some? && depth > maxDepth.value then [TooDeep]
    else if policy.elides(node) then
      [Elided] + VisitsAll(policy, node.children, depth, path, maxDepth)
    else if policy.hidesChildren(node) then [Rendered(Entry(node, depth, path))]
    else [Rendered(Entry(node, depth, path))] + VisitsAll(policy, node.children, depth + 1, path, maxDepth)
  }

  function VisitsAll(
    policy: Policy, children: seq<Child>, depth: nat, path: IndexPath, maxDepth: Option<nat>): seq<Visit>
    decreases children, 1
  {
    if children == [] then []
    else
      var Child(index, node) := children[0];
      assert node < children[0];
      Visits(policy, node, depth, path + [index], maxDepth)
      + VisitsAll(policy, children[1..], depth, path, maxDepth)
  }

  function Entries(visits: seq<Visit>): seq<Entry> {
    if visits == [] then []
    else if visits[0].Rendered? then [visits[0].entry] + Entries(visits[1..])
    else Entries(visits[1..])
  }

  /** A call finds the node cap reached, or is too deep; `room` is how many records still fit. */
  predicate Cut(visits: seq<Visit>, room: nat) {
    visits != [] &&
    (room == 0 || visits[0].TooDeep? || Cut(visits[1..], if visits[0].Rendered? then room - 1 else room))
  }

  /** A call is too deep before the node cap is reached. */
  predicate ReachesDepthCap(visits: seq<Visit>, room: nat) {
    visits != [] && room > 0 &&
    (visits[0].TooDeep? || ReachesDepthCap(visits[1..], if visits[0].Rendered? then room - 1 else room))
  }

  function Min(a: nat, b: nat): nat {
    if a <= b then a else b
  }

  /** Numbering a list of entries from `from` on. */
  function Records(entries: seq<Entry>, from: nat): seq<Record> {
    seq(|entries|, i requires 0 <= i < |entries| => RecordOf(entries[i].node, from + i, entries[i].path))
  }

  function Lines(policy: Policy, entries: seq<Entry>, from: nat): seq<string> {
    seq(|entries|, i requires 0 <= i < |entries| =>
      ElementLine(entries[i].depth, from + i, policy.describe(entries[i].node)))
  }

  /** The renderer's mutable lists and flags. */
  datatype Output = Output(records: seq<Record>, lines: seq<string>, truncated: bool, maxDepthReached: bool)

  const EMPTY := Output([], [], false, false)

  /** What happens to the output once the children of a node have been rendered, given the line
    at which they start and their depth. */
  type Compaction = (Output, nat, nat) -> Output

  datatype Config = Config(policy: Policy, compact: Compaction, maxNodes: nat, maxDepth: nat)

  /** One compaction call on the renderer's lists. */
  function CompactTabs(rules: TabCompaction.TextRules, out: Output, startLine: nat, depth: nat): Output {
    var c := TabCompaction.CallOf(rules, out.lines, out.records, startLine, depth);
    out.(records := TabCompaction.CompactedRecords(c), lines := TabCompaction.CompactedLines(c))
  }

  /** The renderer's configuration: compaction only for browsers. */
  function RuntimeConfig(
    policy: Policy, rules: TabCompaction.TextRules, maxNodes: nat, maxDepth: nat, compactBrowserTabs: bool): Config
  {
    Config(
      policy,
      (out: Output, startLine: nat, depth: nat) =>
        if compactBrowserTabs then CompactTabs(rules, out, startLine, depth) else out,
      maxNodes, maxDepth)
  }

  ghost predicate CompactionOff(config: Config) {
    forall out, startLine, depth :: config.compact(out, startLine, depth) == out
  }

  ghost predicate OnlyRemovesRecords(config: Config) {
    forall out, startLine, depth ::
      var after := config.compact(out, startLine, depth);
      |after.records| <= |out.records| && Origins(after.records) <= Origins(out.records)
  }

  function Append(config: Config, out: Output, entry: Entry): Output {
    out.(records := out.records + [RecordOf(entry.node, |out.records|, entry.path)],
         lines := out.lines + [ElementLine(entry.depth, |out.records|, config.policy.describe(entry.node))])
  }

  /** One call of `walk` on the lists and flags so far. */
  function Render(config: Config, node: Node, depth: nat, path: IndexPath, out: Output): Output
    decreases node, 0
  {
    if |out.records| >= config.maxNodes || depth > config.maxDepth then
      out.(truncated := true, maxDepthReached := out.maxDepthReached || depth > config.maxDepth)
    else if config.policy.elides(node) then RenderAll(config, node.children, depth, path, out)
    else
      var own := Append(config, out, Entry(node, depth, path));
      if config.policy.hidesChildren(node) then own
      else config.compact(RenderAll(config, node.children, depth + 1, path, own), |own.lines|, depth + 1)
  }

  function RenderAll(config: Config, children: seq<Child>, depth: nat, path: IndexPath, out: Output): Output
    decreases children, 1
  {
    if children == [] then out
    else
      var Child(index, node) := children[0];
      assert node < children[0];
      RenderAll(config, children[1..], depth, path, Render(config, node, depth, path + [index], out))
  }

  /** `after` is `before` with the entries of `visits` that fit under the cap, and the flags say
    what did not fit. */
  ghost predicate Extends(policy: Policy, maxNodes: nat, before: Output, after: Output, visits: seq<Visit>) {
    && |before.records| <= maxNodes
    && Appends(policy, before, after, Take(Entries(visits), maxNodes - |before.records|))
    && Flags(before, after, visits, maxNodes - |before.records|)
  }

  ghost predicate Appends(policy: Policy, before: Output, after: Output, kept: seq<Entry>) {
    && after.records == before.records + Records(kept, |before.records|)
    && after.lines == before.lines + Lines(policy, kept, |before.records|)
  }

  ghost predicate Flags(before: Output, after: Output, visits: seq<Visit>, room: nat) {
    && (after.truncated <==> before.truncated || Cut(visits, room))
    && (after.maxDepthReached ==> before.maxDepthReached || TooDeep in visits)
    && (before.maxDepthReached || ReachesDepthCap(visits, room) ==> after.maxDepthReached)
  }

  // ----- Composition

  lemma {:induction false} EntriesConcat(v: seq<Visit>, w: seq<Visit>)
    ensures Entries(v + w) == Entries(v) + Entries(w)
  {
    if v == [] {
      assert v + w == w;
    } else {
      EntriesConcat(v[1..], w);
      assert (v + w)[1..] == v[1..] + w;
    }
  }

  lemma {:induction false} CutConcat(v: seq<Visit>, w: seq<Visit>, room: nat)
    ensures Cut(v + w, room) <==> Cut(v, room) || Cut(w, room - Min(room, |Entries(v)|))
    ensures ReachesDepthCap(v + w, room) ==>
      ReachesDepthCap(v, room) || ReachesDepthCap(w, room - Min(room, |Entries(v)|))
  {
    if v == [] {
      assert v + w == w;
    } else {
      assert (v + w)[1..] == v[1..] + w;
      if room > 0 {
        CutConcat(v[1..], w, if v[0].Rendered? then room - 1 else room);
      }
    }
  }

  lemma {:induction false} FullIsCut(v: seq<Visit>, room: nat)
    requires !Cut(v, room)
    ensures |Entries(v)| <= room
  {
    if v != [] {
      FullIsCut(v[1..], if v[0].Rendered? then room - 1 else room);
    }
  }

  lemma ExtendsNothing(policy: Policy, maxNodes: nat, o: Output)
    requires |o.records| <= maxNodes
    ensures Extends(policy, maxNodes, o, o, [])
  {
    assert Entries([]) == [];
    assert Take<Entry>([], maxNodes - |o.records|) == [];
    assert o.records + Records([], |o.records|) == o.records;
    assert o.lines + Lines(policy, [], |o.records|) == o.lines;
  }

  lemma TakeConcat(e: seq<Entry>, f: seq<Entry>, room: nat)
    ensures Take(e + f, room) == Take(e, room) + Take(f, room - Min(room, |e|))
  {
  }

  lemma AppendsConcat(policy: Policy, a: Output, b: Output, c: Output, e: seq<Entry>, f: seq<Entry>)
    requires Appends(policy, a, b, e) && Appends(policy, b, c, f)
    ensures Appends(policy, a, c, e + f)
  {
    assert Records(e + f, |a.records|) == Records(e, |a.records|) + Records(f, |b.records|);
    assert Lines(policy, e + f, |a.records|) == Lines(policy, e, |a.records|) + Lines(policy, f, |b.records|);
  }

  lemma ExtendsConcat(
    policy: Policy, maxNodes: nat, a: Output, b: Output, c: Output, v: seq<Visit>, w: seq<Visit>)
    requires Extends(policy, maxNodes, a, b, v) && Extends(policy, maxNodes, b, c, w)
    ensures Extends(policy, maxNodes, a, c, v + w)
  {
    var room, rest := maxNodes - |a.records|, maxNodes - |b.records|;
    var e, f := Entries(v), Entries(w);
    assert |b.records| == |a.records| + Min(room, |e|);
    EntriesConcat(v, w);
    TakeConcat(e, f, room);
    AppendsConcat(policy, a, b, c, Take(e, room), Take(f, rest));
    CutConcat(v, w, room);
    assert Flags(a, c, v + w, room);
  }

  // ----- Single calls

  lemma OneVisit(v: seq<Visit>, room: nat)
    requires |v| == 1
    ensures Entries(v) == if v[0].Rendered? then [v[0].entry] else []
    ensures Cut(v, room) <==> room == 0 || v[0].TooDeep?
    ensures ReachesDepthCap(v, room) <==> room > 0 && v[0].TooDeep?
  {
    assert v[1..] == [];
    assert Entries(v[1..]) == [];
    assert !ReachesDepthCap(v[1..], room);
  }

  lemma ExtendsElided(policy: Policy, maxNodes: nat, o: Output)
    requires |o.records| < maxNodes
    ensures Extends(policy, maxNodes, o, o, [Elided])
  {
    OneVisit([Elided], maxNodes - |o.records|);
  }

  lemma ExtendsRendered(policy: Policy, maxNodes: nat, before: Output, after: Output, entry: Entry)
    requires |before.records| < maxNodes
    requires after.records == before.records + [RecordOf(entry.node, |before.records|, entry.path)]
    requires after.lines ==
      before.lines + [ElementLine(entry.depth, |before.records|, policy.describe(entry.node))]
    requires after.truncated == before.truncated && after.maxDepthReached == before.maxDepthReached
    ensures Extends(policy, maxNodes, before, after, [Rendered(entry)])
  {
    OneVisit([Rendered(entry)], maxNodes - |before.records|);
  }

  /** A call that finds the cap reached or is too deep appends nothing and sets the flags. */
  lemma NothingAppended(policy: Policy, maxNodes: nat, before: Output, after: Output, visits: seq<Visit>)
    requires |before.records| <= maxNodes && visits != []
    requires |before.records| == maxNodes || visits == [TooDeep]
    requires after.records == before.records && after.lines == before.lines && after.truncated
    requires after.maxDepthReached == (before.maxDepthReached || visits == [TooDeep])
    ensures Extends(policy, maxNodes, before, after, visits)
  {
    var room := maxNodes - |before.records|;
    OneVisit([TooDeep], room);
    assert Take(Entries(visits), room) == [];
  }

  // ----- Rendering appends the entries that fit

  lemma {:induction false} RenderExtends(config: Config, node: Node, depth: nat, path: IndexPath, out: Output)
    requires CompactionOff(config) && |out.records| <= config.maxNodes
    ensures Extends(config.policy, config.maxNodes, out, Render(config, node, depth, path, out),
                    Visits(config.policy, node, depth, path, Some(config.maxDepth)))
    decreases node, 0
  {
    var policy, maxNodes := config.policy, config.maxNodes;
    var visits := Visits(policy, node, depth, path, Some(config.maxDepth));
    var after := Render(config, node, depth, path, out);
    if |out.records| >= maxNodes || depth > config.maxDepth {
      assert visits[0] == TooDeep <==> depth > config.maxDepth;
      NothingAppended(policy, maxNodes, out, after, visits);
    } else if policy.elides(node) {
      RenderAllExtends(config, node.children, depth, path, out);
      ExtendsElided(policy, maxNodes, out);
      ExtendsConcat(policy, maxNodes, out, out, after, [Elided], visits[1..]);
    } else {
      var entry := Entry(node, depth, path);
      var own := Append(config, out, entry);
      ExtendsRendered(policy, maxNodes, out, own, entry);
      if !policy.hidesChildren(node) {
        RenderAllExtends(config, node.children, depth + 1, path, own);
        ExtendsConcat(policy, maxNodes, out, own, after, [Rendered(entry)], visits[1..]);
      }
    }
  }

  lemma {:induction false} RenderAllExtends(
    config: Config, children: seq<Child>, depth: nat, path: IndexPath, out: Output)
    requires CompactionOff(config) && |out.records| <= config.maxNodes
    ensures Extends(config.policy, config.maxNodes, out, RenderAll(config, children, depth, path, out),
                    VisitsAll(config.policy, children, depth, path, Some(config.maxDepth)))
    decreases children, 1
  {
    if children == [] {
      ExtendsNothing(config.policy, config.maxNodes, out);
    } else {
      var Child(index, node) := children[0];
      assert node < children[0];
      var mid := Render(config, node, depth, path + [index], out);
      RenderExtends(config, node, depth, path + [index], out);
      RenderAllExtends(config, children[1..], depth, path, mid);
      ExtendsConcat(config.policy, config.maxNodes, out, mid, RenderAll(config, children[1..], depth, path, mid),
                    Visits(config.policy, node, depth, path + [index], Some(config.maxDepth)),
                    VisitsAll(config.policy, children[1..], depth, path, Some(config.maxDepth)));
    }
  }

  // ----- Nothing cut

  /** Some call of `walk` is too deep, or comes after the cap has been filled. */
  ghost predicate SomethingLeftOut(v: seq<Visit>, room: nat) {
    exists i :: 0 <= i < |v| && (v[i] == TooDeep || |Entries(v[..i])| >= room)
  }

  /** `truncated` is set exactly when some call of `walk` is too deep, or comes after the cap has
    been filled. */
  lemma {:induction false} CutIff(v: seq<Visit>, room: nat)
    ensures Cut(v, room) <==> SomethingLeftOut(v, room)
  {
    if v != [] {
      var rest := if v[0].Rendered? then room - 1 else room;
      if room > 0 {
        CutIff(v[1..], rest);
        forall i | 0 < i < |v|
          ensures v[i] == v[1..][i - 1]
          ensures |Entries(v[..i])| >= room <==> |Entries(v[1..][..i - 1])| >= rest
        {
          assert v[..i] == [v[0]] + v[1..][..i - 1];
          EntriesConcat([v[0]], v[1..][..i - 1]);
          OneVisit([v[0]], room);
        }
        if Cut(v[1..], rest) {
          var i :| 0 <= i < |v[1..]| && (v[1..][i] == TooDeep || |Entries(v[1..][..i])| >= rest);
          assert v[i + 1] == v[1..][i] && (v[i + 1] == TooDeep || |Entries(v[..i + 1])| >= room);
        }
        assert Entries(v[..0]) == [];
      } else {
        assert |Entries(v[..0])| >= room;
      }
    }
  }

  lemma {:induction false} NotCutNoTooDeep(v: seq<Visit>, room: nat)
    requires !Cut(v, room)
    ensures TooDeep !in v
  {
    if v != [] {
      NotCutNoTooDeep(v[1..], if v[0].Rendered? then room - 1 else room);
      assert v == [v[0]] + v[1..];
    }
  }

  /** Without a too-deep call the depth cap changed nothing. */
  lemma {:induction false} DepthCapIdle(policy: Policy, node: Node, depth: nat, path: IndexPath, maxDepth: nat)
    requires TooDeep !in Visits(policy, node, depth, path, Some(maxDepth))
    ensures Visits(policy, node, depth, path, Some(maxDepth)) == Visits(policy, node, depth, path, None)
    decreases node, 0
  {
    var visits := Visits(policy, node, depth, path, Some(maxDepth));
    assert visits[0] in visits;
    if policy.elides(node) {
      assert visits[1..] == VisitsAll(policy, node.children, depth, path, Some(maxDepth));
      DepthCapIdleAll(policy, node.children, depth, path, maxDepth);
    } else if !policy.hidesChildren(node) {
      assert visits[1..] == VisitsAll(policy, node.children, depth + 1, path, Some(maxDepth));
      DepthCapIdleAll(policy, node.children, depth + 1, path, maxDepth);
    }
  }

  lemma {:induction false} DepthCapIdleAll(
    policy: Policy, children: seq<Child>, depth: nat, path: IndexPath, maxDepth: nat)
    requires TooDeep !in VisitsAll(policy, children, depth, path, Some(maxDepth))
    ensures VisitsAll(policy, children, depth, path, Some(maxDepth))
         == VisitsAll(policy, children, depth, path, None)
    decreases children, 1
  {
    if children != [] {
      var Child(index, node) := children[0];
      assert node < children[0];
      DepthCapIdle(policy, node, depth, path + [index], maxDepth);
      DepthCapIdleAll(policy, children[1..], depth, path, maxDepth);
    }
  }

  // ----- Every entry sits where its path says

  ghost predicate InPlace(app: Node, visits: seq<Visit>) {
    forall v :: v in visits && v.Rendered? ==> NodeAt(app, v.entry.path) == Some(v.entry.node)
  }

  lemma {:induction false} VisitsInPlace(
    policy: Policy, app: Node, node: Node, depth: nat, path: IndexPath, maxDepth: Option<nat>)
    requires WellFormed(node) && NodeAt(app, path) == Some(node)
    ensures InPlace(app, Visits(policy, node, depth, path, maxDepth))
    decreases node, 0
  {
    if !(maxDepth.Some? && depth > maxDepth.value) {
      if policy.elides(node) {
        VisitsAllInPlace(policy, app, node, node.children, depth, path, maxDepth);
      } else if !policy.hidesChildren(node) {
        VisitsAllInPlace(policy, app, node, node.children, depth + 1, path, maxDepth);
      }
    }
  }

  lemma {:induction false} VisitsAllInPlace(
    policy: Policy, app: Node, parent: Node, children: seq<Child>, depth: nat, path: IndexPath, maxDepth: Option<nat>)
    requires WellFormed(parent) && NodeAt(app, path) == Some(parent)
    requires forall c :: c in children ==> c in parent.children
    ensures InPlace(app, VisitsAll(policy, children, depth, path, maxDepth))
    decreases children, 1
  {
    if children != [] {
      NodeAtChild(app, path, parent, children[0]);
      VisitsInPlace(policy, app, children[0].node, depth, path + [children[0].index], maxDepth);
      VisitsAllInPlace(policy, app, parent, children[1..], depth, path, maxDepth);
    }
  }

  // ----- What the policy keeps out

  ghost predicate NoneElided(policy: Policy, visits: seq<Visit>) {
    forall v :: v in visits && v.Rendered? ==> !policy.elides(v.entry.node)
  }

  lemma {:induction false} RenderedNotElided(
    policy: Policy, node: Node, depth: nat, path: IndexPath, maxDepth: Option<nat>)
    ensures NoneElided(policy, Visits(policy, node, depth, path, maxDepth))
    decreases node, 0
  {
    if !(maxDepth.Some? && depth > maxDepth.value) {
      var below := if policy.elides(node) then depth else depth + 1;
      RenderedAllNotElided(policy, node.children, below, path, maxDepth);
    }
  }

  lemma {:induction false} RenderedAllNotElided(
    policy: Policy, children: seq<Child>, depth: nat, path: IndexPath, maxDepth: Option<nat>)
    ensures NoneElided(policy, VisitsAll(policy, children, depth, path, maxDepth))
    decreases children, 1
  {
    if children != [] {
      var Child(index, node) := children[0];
      assert node < children[0];
      RenderedNotElided(policy, node, depth, path + [index], maxDepth);
      RenderedAllNotElided(policy, children[1..], depth, path, maxDepth);
    }
  }

  /** The second path leads to a node below the first. */
  predicate Below(above: IndexPath, below: IndexPath) {
    above < below
  }

  ghost predicate AllUnder(visits: seq<Visit>, path: IndexPath) {
    forall v :: v in visits && v.Rendered? ==> path <= v.entry.path
  }

  /** Each visit lies under one of the children. */
  ghost predicate UnderChildren(visits: seq<Visit>, path: IndexPath, children: seq<Child>) {
    forall v :: v in visits && v.Rendered? ==>
      |path| < |v.entry.path| && path <= v.entry.path && exists c :: c in children && v.entry.path[|path|] == c.index
  }

  lemma {:induction false} VisitsUnder(policy: Policy, node: Node, depth: nat, path: IndexPath, maxDepth: Option<nat>)
    ensures AllUnder(Visits(policy, node, depth, path, maxDepth), path)
    decreases node, 0
  {
    if !(maxDepth.Some? && depth > maxDepth.value) {
      var below := if policy.elides(node) then depth else depth + 1;
      VisitsAllUnder(policy, node.children, below, path, maxDepth);
    }
  }

  lemma {:induction false} VisitsAllUnder(
    policy: Policy, children: seq<Child>, depth: nat, path: IndexPath, maxDepth: Option<nat>)
    ensures UnderChildren(VisitsAll(policy, children, depth, path, maxDepth), path, children)
    decreases children, 1
  {
    if children != [] {
      var Child(index, node) := children[0];
      assert node < children[0] && children == [children[0]] + children[1..];
      VisitsUnder(policy, node, depth, path + [index], maxDepth);
      VisitsAllUnder(policy, children[1..], depth, path, maxDepth);
      OneChild(Visits(policy, node, depth, path + [index], maxDepth), path, children[0]);
    }
  }

  lemma OneChild(visits: seq<Visit>, path: IndexPath, c: Child)
    requires AllUnder(visits, path + [c.index])
    ensures UnderChildren(visits, path, [c])
  {
    forall v | v in visits && v.Rendered?
      ensures |path| < |v.entry.path| && path <= v.entry.path && v.entry.path[|path|] == c.index
    {
      assert v.entry.path[..|path| + 1] == path + [c.index];
      assert v.entry.path[..|path|] == path;
    }
    assert c in [c];
  }

  ghost predicate NoneBelowHidden(policy: Policy, visits: seq<Visit>) {
    forall v, w :: v in visits && w in visits && v.Rendered? && w.Rendered? && Below(v.entry.path, w.entry.path) ==>
      !policy.hidesChildren(v.entry.node)
  }

  /** Nothing is rendered below a node that hides its children. */
  lemma {:induction false} NothingBelowHidden(
    policy: Policy, node: Node, depth: nat, path: IndexPath, maxDepth: Option<nat>)
    requires WellFormed(node)
    ensures NoneBelowHidden(policy, Visits(policy, node, depth, path, maxDepth))
    decreases node, 0
  {
    if !(maxDepth.Some? && depth > maxDepth.value) {
      var below := if policy.elides(node) then depth else depth + 1;
      NothingBelowHiddenAll(policy, node.children, below, path, maxDepth);
      VisitsAllUnder(policy, node.children, below, path, maxDepth);
    }
  }

  lemma {:induction false} NothingBelowHiddenAll(
    policy: Policy, children: seq<Child>, depth: nat, path: IndexPath, maxDepth: Option<nat>)
    requires Ascending(children) && forall c :: c in children ==> WellFormed(c.node)
    ensures NoneBelowHidden(policy, VisitsAll(policy, children, depth, path, maxDepth))
    decreases children, 1
  {
    if children != [] {
      var Child(index, node) := children[0];
      assert node < children[0] && children[0] in children;
      NothingBelowHidden(policy, node, depth, path + [index], maxDepth);
      NothingBelowHiddenAll(policy, children[1..], depth, path, maxDepth);
      VisitsUnder(policy, node, depth, path + [index], maxDepth);
      VisitsAllUnder(policy, children[1..], depth, path, maxDepth);
      OneChild(Visits(policy, node, depth, path + [index], maxDepth), path, children[0]);
      ApartFromSiblings(policy, Visits(policy, node, depth, path + [index], maxDepth),
                        VisitsAll(policy, children[1..], depth, path, maxDepth), path, children);
    }
  }

  lemma ApartFromSiblings(policy: Policy, v: seq<Visit>, w: seq<Visit>, path: IndexPath, children: seq<Child>)
    requires children != [] && Ascending(children)
    requires UnderChildren(v, path, [children[0]]) && UnderChildren(w, path, children[1..])
    requires NoneBelowHidden(policy, v) && NoneBelowHidden(policy, w)
    ensures NoneBelowHidden(policy, v + w)
  {
    forall x, y | x in v && y in w && x.Rendered? && y.Rendered?
      ensures !Below(x.entry.path, y.entry.path) && !Below(y.entry.path, x.entry.path)
    {
      assert x.entry.path[|path|] < y.entry.path[|path|];
    }
  }

  /** The records that the visited entries make, up to their index. */
  ghost function Sources(visits: seq<Visit>): set<Record> {
    set v | v in visits && v.Rendered? :: RecordOf(v.entry.node, 0, v.entry.path)
  }

  ghost function Origins(records: seq<Record>): set<Record> {
    set r | r in records :: r.(index := 0)
  }

  ghost predicate ComeFrom(records: seq<Record>, earlier: seq<Record>, visits: seq<Visit>) {
    Origins(records) <= Origins(earlier) + Sources(visits)
  }

  lemma SourcesConcat(v: seq<Visit>, w: seq<Visit>)
    ensures Sources(v + w) == Sources(v) + Sources(w)
  {
  }

  lemma ComeFromConcat(
    records: seq<Record>, mid: seq<Record>, earlier: seq<Record>, v: seq<Visit>, w: seq<Visit>)
    requires ComeFrom(records, mid, w) && ComeFrom(mid, earlier, v)
    ensures ComeFrom(records, earlier, v + w)
  {
    SourcesConcat(v, w);
  }

  lemma OwnRecordComesFrom(records: seq<Record>, entry: Entry)
    ensures ComeFrom(records + [RecordOf(entry.node, |records|, entry.path)], records, [Rendered(entry)])
  {
    assert Rendered(entry) in [Rendered(entry)];
  }

  /** With or without compaction, every record of a render was made from a visited entry, and
    the node cap holds. */
  lemma {:induction false} RenderComesFrom(config: Config, node: Node, depth: nat, path: IndexPath, out: Output)
    requires OnlyRemovesRecords(config)
    requires |out.records| <= config.maxNodes
    ensures
      var after := Render(config, node, depth, path, out);
      && |after.records| <= config.maxNodes
      && ComeFrom(after.records, out.records, Visits(config.policy, node, depth, path, Some(config.maxDepth)))
    decreases node, 0
  {
    if |out.records| >= config.maxNodes || depth > config.maxDepth {
    } else if config.policy.elides(node) {
      var below := RenderAll(config, node.children, depth, path, out);
      var rest := VisitsAll(config.policy, node.children, depth, path, Some(config.maxDepth));
      RenderAllComesFrom(config, node.children, depth, path, out);
      ComeFromConcat(below.records, out.records, out.records, [Elided], rest);
    } else {
      var entry := Entry(node, depth, path);
      var own := Append(config, out, entry);
      OwnRecordComesFrom(out.records, entry);
      if !config.policy.hidesChildren(node) {
        var below := RenderAll(config, node.children, depth + 1, path, own);
        RenderAllComesFrom(config, node.children, depth + 1, path, own);
        ComeFromConcat(below.records, own.records, out.records, [Rendered(entry)],
                       VisitsAll(config.policy, node.children, depth + 1, path, Some(config.maxDepth)));
        assert Origins(config.compact(below, |own.lines|, depth + 1).records) <= Origins(below.records);
      }
    }
  }

  /** The runtime's configurations are of the two kinds the results speak of. */
  lemma RuntimeCompaction(
    policy: Policy, rules: TabCompaction.TextRules, maxNodes: nat, maxDepth: nat, compactBrowserTabs: bool)
    ensures OnlyRemovesRecords(RuntimeConfig(policy, rules, maxNodes, maxDepth, compactBrowserTabs))
    ensures !compactBrowserTabs ==> CompactionOff(RuntimeConfig(policy, rules, maxNodes, maxDepth, compactBrowserTabs))
  {
    forall out, startLine, depth
      ensures
        var after := CompactTabs(rules, out, startLine, depth);
        |after.records| <= |out.records| && Origins(after.records) <= Origins(out.records)
    {
      var c := TabCompaction.CallOf(rules, out.lines, out.records, startLine, depth);
      TabCompaction.NoNewRecords(c, TabCompaction.CompactedLines(c), TabCompaction.CompactedRecords(c));
    }
  }

  lemma {:induction false} RenderAllComesFrom(
    config: Config, children: seq<Child>, depth: nat, path: IndexPath, out: Output)
    requires OnlyRemovesRecords(config)
    requires |out.records| <= config.maxNodes
    ensures
      var after := RenderAll(config, children, depth, path, out);
      && |after.records| <= config.maxNodes
      && ComeFrom(after.records, out.records, VisitsAll(config.policy, children, depth, path, Some(config.maxDepth)))
    decreases children, 1
  {
    if children != [] {
      var Child(index, node) := children[0];
      assert node < children[0];
      var mid := Render(config, node, depth, path + [index], out);
      RenderComesFrom(config, node, depth, path + [index], out);
      RenderAllComesFrom(config, children[1..], depth, path, mid);
      ComeFromConcat(RenderAll(config, children[1..], depth, path, mid).records, mid.records, out.records,
                     Visits(config.policy, node, depth, path + [index], Some(config.maxDepth)),
                     VisitsAll(config.policy, children[1..], depth, path, Some(config.maxDepth)));
    }
  }

  /** The record was made from a node that its path still leads to. */
  ghost predicate ResolvesToOrigin(app: Node, r: Record, visits: seq<Visit>) {
    exists v :: v in visits && IsOrigin(app, r, v)
  }

  ghost predicate IsOrigin(app: Node, r: Record, v: Visit) {
    && v.Rendered? && r == RecordOf(v.entry.node, r.index, v.entry.path)
    && Lookup(app, Some(r)) == Some(v.entry.node)
  }

  /** A record made from an entry in place resolves to the very node it was made from. */
  lemma RecordResolves(app: Node, r: Record, visits: seq<Visit>)
    requires InPlace(app, visits) && r.(index := 0) in Sources(visits)
    ensures ResolvesToOrigin(app, r, visits)
  {
    var v :| v in visits && v.Rendered? && r.(index := 0) == RecordOf(v.entry.node, 0, v.entry.path);
    assert IsOrigin(app, r, v);
  }

  /** Lookup undoes recording: every record of a render of a subtree of `app`, compacted or not,
    is looked up as the very node it was made from, despite index gaps and elided ancestors. */
  lemma RecordsResolve(config: Config, app: Node, node: Node, path: IndexPath)
    requires OnlyRemovesRecords(config)
    requires WellFormed(node) && NodeAt(app, path) == Some(node)
    ensures forall saved :: saved in Render(config, node, 0, path, EMPTY).records ==>
      ResolvesToOrigin(app, saved, Visits(config.policy, node, 0, path, Some(config.maxDepth)))
  {
    var visits := Visits(config.policy, node, 0, path, Some(config.maxDepth));
    RenderComesFrom(config, node, 0, path, EMPTY);
    VisitsInPlace(config.policy, app, node, 0, path, Some(config.maxDepth));
    forall saved | saved in Render(config, node, 0, path, EMPTY).records
      ensures ResolvesToOrigin(app, saved, visits)
    {
      assert saved.(index := 0) in Origins(Render(config, node, 0, path, EMPTY).records);
      RecordResolves(app, saved, visits);
    }
  }

  // ----- Whole renders

  lemma FromEmpty(config: Config, node: Node, path: IndexPath)
    requires CompactionOff(config)
    ensures
      var kept := Take(Entries(Visits(config.policy, node, 0, path, Some(config.maxDepth))), config.maxNodes);
      var out := Render(config, node, 0, path, EMPTY);
      out.records == Records(kept, 0) && out.lines == Lines(config.policy, kept, 0)
  {
    RenderExtends(config, node, 0, path, EMPTY);
  }

  lemma TakeNumbered(policy: Policy, entries: seq<Entry>, room: nat)
    ensures Records(Take(entries, room), 0) == Take(Records(entries, 0), room)
    ensures Lines(policy, Take(entries, room), 0) == Take(Lines(policy, entries, 0), room)
  {
  }

  /** The node cap is a prefix: with compaction off, the records and lines are exactly the first
    `maxNodes` of the render of the same tree under any cap large enough for all of it. */
  lemma CapIsPrefix(config: Config, larger: nat, node: Node, path: IndexPath)
    requires CompactionOff(config)
    requires |Entries(Visits(config.policy, node, 0, path, Some(config.maxDepth)))| <= larger
    ensures
      var entries := Entries(Visits(config.policy, node, 0, path, Some(config.maxDepth)));
      var capped := Render(config, node, 0, path, EMPTY);
      var full := Render(config.(maxNodes := larger), node, 0, path, EMPTY);
      && full.records == Records(entries, 0) && full.lines == Lines(config.policy, entries, 0)
      && capped.records == Take(full.records, config.maxNodes)
      && capped.lines == Take(full.lines, config.maxNodes)
  {
    var entries := Entries(Visits(config.policy, node, 0, path, Some(config.maxDepth)));
    FromEmpty(config, node, path);
    FromEmpty(config.(maxNodes := larger), node, path);
    assert Take(entries, larger) == entries;
    TakeNumbered(config.policy, entries, config.maxNodes);
  }

  /** With compaction off, record i has index i and owns line i.  The text after an element number
    starts with a blank or a comma, never with a digit. */
  lemma RecordOwnsLine(config: Config, node: Node, path: IndexPath, i: nat)
    requires CompactionOff(config)
    requires forall n :: config.policy.describe(n) == "" || !IsDigit(config.policy.describe(n)[0])
    requires i < |Render(config, node, 0, path, EMPTY).records|
    ensures
      var out := Render(config, node, 0, path, EMPTY);
      var entries := Entries(Visits(config.policy, node, 0, path, Some(config.maxDepth)));
      && i < |entries| && |out.lines| == |out.records|
      && out.records[i] == RecordOf(entries[i].node, i, entries[i].path)
      && RenderedElementIndex(out.lines[i], entries[i].depth) == Some(i)
  {
    RenderExtends(config, node, 0, path, EMPTY);
    var e := Entries(Visits(config.policy, node, 0, path, Some(config.maxDepth)))[i];
    ReadIndex(e.depth, i, config.policy.describe(e.node));
  }

  /** `truncated == false` means neither cap cut anything: with compaction off the output is the
    render of the whole tree with both caps lifted. */
  lemma NotTruncatedIsWhole(config: Config, node: Node, path: IndexPath)
    requires CompactionOff(config)
    requires !Render(config, node, 0, path, EMPTY).truncated
    ensures
      var out := Render(config, node, 0, path, EMPTY);
      var all := Entries(Visits(config.policy, node, 0, path, None));
      && out.records == Records(all, 0)
      && out.lines == Lines(config.policy, all, 0)
      && !out.maxDepthReached
  {
    RenderExtends(config, node, 0, path, EMPTY);
    var visits := Visits(config.policy, node, 0, path, Some(config.maxDepth));
    NotCutNoTooDeep(visits, config.maxNodes);
    DepthCapIdle(config.policy, node, 0, path, config.maxDepth);
    FullIsCut(visits, config.maxNodes);
    assert Take(Entries(visits), config.maxNodes) == Entries(visits);
  }

  /** Exactly when `truncated` is set. */
  lemma TruncatedIff(config: Config, node: Node, path: IndexPath)
    requires CompactionOff(config)
    ensures
      Render(config, node, 0, path, EMPTY).truncated
      <==> SomethingLeftOut(Visits(config.policy, node, 0, path, Some(config.maxDepth)), config.maxNodes)
  {
    RenderExtends(config, node, 0, path, EMPTY);
    CutIff(Visits(config.policy, node, 0, path, Some(config.maxDepth)), config.maxNodes);
  }
}
