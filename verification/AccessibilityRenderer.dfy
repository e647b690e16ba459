/** The renderer that fills and edits the record and line lists
  (native/computer-use-linux/runtime.py, `render_accessibility_tree`, `walk`,
  `compact_rendered_browser_tabs`). */
module AccessibilityRenderer {
  import opened Wrappers
  import opened AccessibilityTree
  import opened RenderedLines
  import opened TreeRendering
  import opened SnapshotContents
  import TabCompaction
  import CompactionMeaning

  const MAX_NODES: nat := 1200
  const MAX_DEPTH: nat := 64

  class Renderer {
    const policy: Policy
    const rules: TabCompaction.TextRules
    const maxNodes: nat
    const maxDepth: nat
    const compactBrowserTabs: bool
    var records: seq<Record>
    var lines: seq<string>
    var truncated: bool
    var maxDepthReached: bool

    constructor (policy: Policy, rules: TabCompaction.TextRules, maxNodes: nat, maxDepth: nat, compactBrowserTabs: bool)
      ensures Configured() == RuntimeConfig(policy, rules, maxNodes, maxDepth, compactBrowserTabs)
      ensures Out() == EMPTY
    {
      this.policy, this.rules, this.maxNodes, this.maxDepth := policy, rules, maxNodes, maxDepth;
      this.compactBrowserTabs := compactBrowserTabs;
      records, lines, truncated, maxDepthReached := [], [], false, false;
    }

    ghost function Configured(): Config {
      RuntimeConfig(policy, rules, maxNodes, maxDepth, compactBrowserTabs)
    }

    ghost function Out(): Output
      reads this
    {
      Output(records, lines, truncated, maxDepthReached)
    }

    /** The positions of the direct tab lines from `startLine` on. */
    method DirectTabLines(startLine: nat, depth: nat, ghost c: TabCompaction.Call) returns (tabs: seq<nat>)
      requires c.Valid() && |lines| == |c.lines|
      requires forall i :: 0 <= i < |lines| ==>
        (TabCompaction.IsTab(c.marks[i]) <==> startLine <= i && IsDirectTabLine(rules.fold, lines[i], depth))
      ensures tabs == TabCompaction.Where(c.marks, TabCompaction.IsTab, 0)
    {
      tabs := [];
      TabCompaction.SkipNonTabs(c.marks, 0, startLine);
      var lineIndex := startLine;
      while lineIndex < |lines|
        invariant tabs + TabCompaction.Where(c.marks, TabCompaction.IsTab, lineIndex)
               == TabCompaction.Where(c.marks, TabCompaction.IsTab, 0)
      {
        var isTab := IsDirectTabLine(rules.fold, lines[lineIndex], depth);
        TabCompaction.WhereStep(c.marks, tabs, lineIndex, isTab);
        if isTab {
          tabs := tabs + [lineIndex];
        }
        lineIndex := lineIndex + 1;
      }
    }

    method ActiveTabLines(depth: nat, tabs: seq<nat>, ghost c: TabCompaction.Call) returns (active: set<nat>)
      requires c.Valid() && |lines| == |c.lines|
      requires forall i :: 0 <= i < |lines| && TabCompaction.IsTab(c.marks[i]) ==>
        (c.marks[i] == TabCompaction.ActiveTab <==>
         TabCompaction.IsActiveTabLine(rules, lines[i], depth, TabCompaction.RecordsByIndex(records)))
      requires tabs == TabCompaction.Where(c.marks, TabCompaction.IsTab, 0)
      ensures forall i :: i in active <==> i in tabs && c.marks[i] == TabCompaction.ActiveTab
      ensures active == {} <==> TabCompaction.Where(c.marks, TabCompaction.IsActive, 0) == []
    {
      var recordsByIndex := TabCompaction.RecordsByIndex(records);
      TabCompaction.WhereIsExact(c.marks, TabCompaction.IsTab, 0);
      active := {};
      for k := 0 to |tabs|
        invariant forall i :: i in active <==> i in tabs[..k] && c.marks[i] == TabCompaction.ActiveTab
      {
        var i := tabs[k];
        assert i in tabs && tabs[..k + 1] == tabs[..k] + [i];
        var isActive := TabCompaction.IsActiveTabLine(rules, lines[i], depth, recordsByIndex);
        if isActive {
          active := active + {i};
        }
      }
      assert tabs[..|tabs|] == tabs;
      TabCompaction.ActiveAmongTabs(c.marks, active);
    }

    /** Deletes the inactive tab lines, last first. */
    method DeleteInactiveTabs(tabs: seq<nat>, active: set<nat>, depth: nat, ghost c: TabCompaction.Call)
      returns (omittedCount: nat, omittedRecordIndexes: set<nat>)
      requires c.Valid() && c.lines == lines
      requires forall i :: 0 <= i < |lines| ==> c.numbers[i] == RenderedElementIndex(lines[i], depth)
      requires tabs == TabCompaction.Where(c.marks, TabCompaction.IsTab, 0) && tabs != []
      requires forall i :: i in active <==> i in tabs && c.marks[i] == TabCompaction.ActiveTab
      modifies this`lines
      ensures lines == TabCompaction.DeletedFrom(c, tabs[0])
      ensures omittedCount == c.Dropped()
      ensures omittedRecordIndexes == TabCompaction.Omitted(c.marks, c.numbers, 0)
    {
      omittedCount, omittedRecordIndexes := 0, {};
      ghost var b := |lines|;
      assert lines == TabCompaction.DeletedFrom(c, b);
      for k := |tabs| downto 0
        invariant b == if k < |tabs| then tabs[k] else |c.lines|
        invariant TabCompaction.DeletedTo(c, b, lines, omittedCount, omittedRecordIndexes)
      {
        var i := tabs[k];
        TabCompaction.DeletionAdvances(c, tabs, k, b, lines, omittedCount, omittedRecordIndexes);
        b := i;
        if i in active {
          continue;
        }
        var recordIndex := RenderedElementIndex(lines[i], depth);
        assert recordIndex == c.numbers[i];
        if recordIndex.Some? {
          omittedRecordIndexes := omittedRecordIndexes + {recordIndex.value};
        }
        lines := lines[..i] + lines[i + 1..];
        omittedCount := omittedCount + 1;
      }
      TabCompaction.DeletionEnds(c, tabs);
    }

    /** One compaction call, on the lines from `startLine` on. */
    method CompactRenderedBrowserTabs(startLine: nat, depth: nat)
      modifies this`records, this`lines
      ensures TabCompaction.Compacts(
        TabCompaction.CallOf(rules, old(lines), old(records), startLine, depth), lines, records)
      ensures CompactionMeaning.CompactsTo(rules, old(lines), old(records), startLine, depth, lines, records)
    {
      EditLists(startLine, depth);
      CompactionMeaning.CallMeans(rules, old(lines), old(records), startLine, depth, lines, records);
    }

    /** The body of the compaction function. */
    method EditLists(startLine: nat, depth: nat)
      modifies this`records, this`lines
      ensures TabCompaction.Compacts(
        TabCompaction.CallOf(rules, old(lines), old(records), startLine, depth), lines, records)
    {
      ghost var c := TabCompaction.CallOf(rules, lines, records, startLine, depth);
      TabCompaction.CallMarks(rules, lines, records, startLine, depth);
      var tabLineIndexes := DirectTabLines(startLine, depth, c);
      if |tabLineIndexes| < TabCompaction.MIN_TABS {
        return;
      }
      var activeLineIndexes := ActiveTabLines(depth, tabLineIndexes, c);
      if activeLineIndexes == {} {
        return;
      }
      var insertionIndex := tabLineIndexes[0];
      var omittedCount, omittedRecordIndexes :=
        DeleteInactiveTabs(tabLineIndexes, activeLineIndexes, depth, c);
      if omittedCount <= 0 {
        TabCompaction.NothingDropped(c, insertionIndex);
        return;
      }
      records := TabCompaction.WithoutIndexes(records, omittedRecordIndexes);
      lines := lines[..insertionIndex] + [Marker(depth, omittedCount)] + lines[insertionIndex..];
    }

    /** `walk`. */
    method Walk(node: Node, depth: nat, path: IndexPath)
      modifies this`records, this`lines, this`truncated, this`maxDepthReached
      ensures Out() == Render(Configured(), node, depth, path, old(Out()))
      decreases node, 1
    {
      if |records| >= maxNodes || depth > maxDepth {
        truncated := true;
        if depth > maxDepth {
          maxDepthReached := true;
        }
        return;
      }
      var item := RecordOf(node, |records|, path);
      if policy.elides(node) {
        WalkChildren(node, depth, path);
        return;
      }
      records := records + [item];
      lines := lines + [ElementLine(depth, item.index, policy.describe(node))];
      assert Out() == Append(Configured(), old(Out()), Entry(node, depth, path));
      if policy.hidesChildren(node) {
        return;
      }
      var childLineStart := |lines|;
      WalkChildren(node, depth + 1, path);
      if compactBrowserTabs {
        CompactRenderedBrowserTabs(childLineStart, depth + 1);
      }
    }

    /** The loop over a node's children. */
    method WalkChildren(parent: Node, depth: nat, path: IndexPath)
      modifies this`records, this`lines, this`truncated, this`maxDepthReached
      ensures Out() == RenderAll(Configured(), parent.children, depth, path, old(Out()))
      decreases parent, 0
    {
      var items := parent.children;
      for i := 0 to |items|
        invariant RenderAll(Configured(), items[i..], depth, path, Out())
               == RenderAll(Configured(), items, depth, path, old(Out()))
      {
        var Child(index, child) := items[i];
        assert child < items[i];
        assert items[i..][1..] == items[i + 1..];
        Walk(child, depth, path + [index]);
      }
    }
  }

  // ----- Snapshots

  /** Rendering a tree with the source's caps. */
  method RenderAccessibilityTree(
    policy: Policy, rules: TabCompaction.TextRules, root: Node, rootPath: IndexPath, compactBrowserTabs: bool)
    returns (out: Output)
    ensures
      var config := RuntimeConfig(policy, rules, MAX_NODES, MAX_DEPTH, compactBrowserTabs);
      out == Render(config, root, 0, rootPath, EMPTY)
  {
    var renderer := new Renderer(policy, rules, MAX_NODES, MAX_DEPTH, compactBrowserTabs);
    renderer.Walk(root, 0, rootPath);
    out := Output(renderer.records, renderer.lines, renderer.truncated, renderer.maxDepthReached);
  }

  datatype Snapshot = Snapshot(windowIndex: nat, output: Output)

  /** The snapshot shows window `c`: every record is that of a node shown in it, and is looked up as
    that very node; there are at most 1200; and without tab compaction the contents are exactly what
    is to be shown. */
  ghost predicate SnapshotOf(
    texts: Texts, rules: TabCompaction.TextRules, app: Node, c: Child, compactBrowserTabs: bool, snapshot: Snapshot)
  {
    var config := RuntimeConfig(RuntimePolicy(texts), rules, 1200, 64, compactBrowserTabs);
    && snapshot.windowIndex == c.index
    && snapshot.output == Render(config, c.node, 0, [c.index], EMPTY)
    && |snapshot.output.records| <= 1200
    && (forall saved :: saved in snapshot.output.records ==> FoundAgain(texts, app, c.index, c.node, saved))
    && (!compactBrowserTabs ==> ShowsWindow(texts, c.index, c.node, snapshot.output))
  }

  /** The result of a snapshot in which this choice of a window was made. */
  ghost predicate Shows(
    texts: Texts, rules: TabCompaction.TextRules, app: Node, choice: Result<Child, WindowError>,
    compactBrowserTabs: bool, r: Result<Snapshot, WindowError>)
  {
    match choice
    case Err(e) => r == Err(e)
    case Ok(c) => r.Ok? && SnapshotOf(texts, rules, app, c, compactBrowserTabs, r.value)
  }

  lemma SnapshotHolds(
    texts: Texts, rules: TabCompaction.TextRules, app: Node, c: Child, compactBrowserTabs: bool, snapshot: Snapshot)
    requires WellFormed(app) && c in app.children
    requires
      var config := RuntimeConfig(RuntimePolicy(texts), rules, MAX_NODES, MAX_DEPTH, compactBrowserTabs);
      snapshot == Snapshot(c.index, Render(config, c.node, 0, [c.index], EMPTY))
    ensures SnapshotOf(texts, rules, app, c, compactBrowserTabs, snapshot)
  {
    var policy := RuntimePolicy(texts);
    var config := RuntimeConfig(policy, rules, MAX_NODES, MAX_DEPTH, compactBrowserTabs);
    RuntimeCompaction(policy, rules, MAX_NODES, MAX_DEPTH, compactBrowserTabs);
    RenderComesFrom(config, c.node, 0, [c.index], EMPTY);
    RecordsAreFoundAgain(texts, config, app, c);
    if !compactBrowserTabs {
      RenderShowsWindow(texts, c.index, c.node, config);
    }
  }

  lemma RecordsAreFoundAgain(texts: Texts, config: Config, app: Node, c: Child)
    requires WellFormed(app) && c in app.children
    requires OnlyRemovesRecords(config) && config.policy == RuntimePolicy(texts) && config.maxDepth == 64
    ensures forall saved :: saved in Render(config, c.node, 0, [c.index], EMPTY).records ==>
      FoundAgain(texts, app, c.index, c.node, saved)
  {
    NodeAtChild(app, [], app, c);
    assert [] + [c.index] == [c.index];
    RecordsResolve(config, app, c.node, [c.index]);
    forall saved | saved in Render(config, c.node, 0, [c.index], EMPTY).records
      ensures FoundAgain(texts, app, c.index, c.node, saved)
    {
      OriginIsShown(texts, app, c.index, c.node, saved);
    }
  }

  /** Lookup undoes recording: on an unchanged application tree every record of a snapshot, with
    or without tab compaction, resolves to the very node it was made from.  `restored` is the tree
    after the window was restored, if that was asked for; the window keeps its index. */
  method MakeSnapshot(
    texts: Texts, rules: TabCompaction.TextRules, isWindowRole: RoleTest, app: Node,
    windowId: Option<string>, windowIndex: Option<int>, restored: Option<Node>, compactBrowserTabs: bool)
    returns (r: Result<Snapshot, WindowError>)
    requires WellFormed(app) && (restored.Some? ==> WellFormed(restored.value))
    ensures restored.None? ==>
      Shows(texts, rules, app, ChosenWindow(isWindowRole, app, windowId, windowIndex), compactBrowserTabs, r)
    ensures restored.Some? ==>
      match ChosenWindow(isWindowRole, app, windowId, windowIndex)
      case Err(e) => r == Err(e)
      case Ok(c) =>
        && (r.Ok? ==> r.value.windowIndex == c.index)
        && Shows(texts, rules, restored.value, ChosenWindow(isWindowRole, restored.value, windowId, Some(c.index)),
                 compactBrowserTabs, r)
  {
    var chosen := ChooseWindow(isWindowRole, app, windowId, windowIndex);
    if chosen.Err? {
      return Err(chosen.error);
    }
    ChosenWindowMeans(isWindowRole, app, windowId, windowIndex);
    var shown, c := app, chosen.value;
    if restored.Some? {
      shown := restored.value;
      chosen := ChooseWindow(isWindowRole, shown, windowId, Some(c.index));
      ChosenWindowMeans(isWindowRole, shown, windowId, Some(c.index));
      if chosen.Err? {
        return Err(chosen.error);
      }
      c := chosen.value;
    }
    var policy := RuntimePolicy(texts);
    var out := RenderAccessibilityTree(policy, rules, c.node, [c.index], compactBrowserTabs);
    SnapshotHolds(texts, rules, shown, c, compactBrowserTabs, Snapshot(c.index, out));
    return Ok(Snapshot(c.index, out));
  }
}
