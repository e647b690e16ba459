/** How element indexes fare over a whole render with tab compaction on
  (native/computer-use-linux/runtime.py, `render_accessibility_tree`, `compact_rendered_browser_tabs`):
  they are unique up to and including the first call that drops anything. */
module CompactedRendering {
  import opened Wrappers
  import opened StringOps
  import opened AccessibilityTree
  import opened RenderedLines
  import opened TreeRendering
  import TabCompaction

  // ----- Numbered output

  ghost predicate IsElementLine(line: string, index: nat) {
    exists depth: nat, body :: line == ElementLine(depth, index, body) && (body == "" || !IsDigit(body[0]))
  }

  /** Record i has index i and line i shows it. */
  ghost predicate Numbered(out: Output) {
    && |out.lines| == |out.records|
    && (forall i :: 0 <= i < |out.records| ==> out.records[i].index == i)
    && (forall i :: 0 <= i < |out.lines| ==> IsElementLine(out.lines[i], i))
  }

  /** The text after an element number starts with a blank or a comma, never with a digit. */
  ghost predicate DescribesWithoutDigit(policy: Policy) {
    forall n :: policy.describe(n) == "" || !IsDigit(policy.describe(n)[0])
  }

  lemma AppendsNumbered(policy: Policy, before: Output, after: Output, kept: seq<Entry>)
    requires Numbered(before) && DescribesWithoutDigit(policy) && Appends(policy, before, after, kept)
    ensures Numbered(after)
  {
    forall i | 0 <= i < |after.lines| ensures IsElementLine(after.lines[i], i) {
      if i < |before.lines| {
        assert after.lines[i] == before.lines[i];
      } else {
        var e := kept[i - |before.lines|];
        assert after.lines[i] == ElementLine(e.depth, i, policy.describe(e.node));
      }
    }
  }

  lemma AppendNumbered(config: Config, out: Output, entry: Entry)
    requires Numbered(out) && DescribesWithoutDigit(config.policy)
    ensures Numbered(Append(config, out, entry))
  {
    AppendAppends(config, out, entry);
    AppendsNumbered(config.policy, out, Append(config, out, entry), [entry]);
  }

  lemma AppendAppends(config: Config, out: Output, entry: Entry)
    ensures Appends(config.policy, out, Append(config, out, entry), [entry])
  {
  }

  lemma StartsWithTabs(line: string, depth: nat)
    requires Indent(depth) <= line
    ensures forall k: nat :: k < depth ==> line[k] == '\t'
  {
    forall k: nat | k < depth ensures line[k] == '\t' {
      assert Indent(depth)[k] == '\t';
    }
  }

  /** The first character after a line's indentation tells its depth. */
  lemma SameDepth(line: string, d: nat, depth: nat)
    requires Indent(d) <= line && d < |line| && line[d] != '\t'
    requires Indent(depth) <= line && (|line| > depth ==> line[depth] != '\t')
    ensures d == depth
  {
    StartsWithTabs(line, d);
    StartsWithTabs(line, depth);
  }

  lemma DirectIndex(fold: CaseFold, line: string, index: nat, depth: nat)
    requires IsElementLine(line, index) && IsDirectTabLine(fold, line, depth)
    ensures RenderedElementIndex(line, depth) == Some(index)
  {
    var d: nat, body :| line == ElementLine(d, index, body) && (body == "" || !IsDigit(body[0]));
    DigitsAreDigits(index);
    assert line[d] == (Digits(index) + body)[0];
    SameDepth(line, d, depth);
    ReadIndex(depth, index, body);
  }

  /** A call on numbered output is uniquely indexed. */
  lemma NumberedCall(rules: TabCompaction.TextRules, out: Output, start: nat, depth: nat)
    requires Numbered(out)
    ensures TabCompaction.UniquelyIndexed(TabCompaction.CallOf(rules, out.lines, out.records, start, depth))
  {
    var c := TabCompaction.CallOf(rules, out.lines, out.records, start, depth);
    forall i | 0 <= i < |c.marks| && TabCompaction.IsTab(c.marks[i])
      ensures c.numbers[i] == Some(i) && i in TabCompaction.IndexSet(c.records)
    {
      DirectIndex(rules.fold, out.lines[i], i, depth);
      assert out.records[i] in out.records;
    }
  }

  // ----- The first call that drops anything

  /** The first compaction call of a render that is not idle. */
  function FirstCall(
    config: Config, rules: TabCompaction.TextRules, node: Node, depth: nat, path: IndexPath, out: Output)
    : Option<TabCompaction.Call>
    decreases node, 0
  {
    if |out.records| >= config.maxNodes || depth > config.maxDepth then None
    else if config.policy.elides(node) then FirstCallAmong(config, rules, node.children, depth, path, out)
    else
      var own := Append(config, out, Entry(node, depth, path));
      if config.policy.hidesChildren(node) then None
      else
        match FirstCallAmong(config, rules, node.children, depth + 1, path, own)
        case Some(c) => Some(c)
        case None =>
          var below := RenderAll(config, node.children, depth + 1, path, own);
          var c := TabCompaction.CallOf(rules, below.lines, below.records, |own.lines|, depth + 1);
          if TabCompaction.Idle(c.marks) then None else Some(c)
  }

  function FirstCallAmong(
    config: Config, rules: TabCompaction.TextRules, children: seq<Child>, depth: nat, path: IndexPath, out: Output)
    : Option<TabCompaction.Call>
    decreases children, 1
  {
    if children == [] then None
    else
      var Child(index, node) := children[0];
      assert node < children[0];
      match FirstCall(config, rules, node, depth, path + [index], out)
      case Some(c) => Some(c)
      case None =>
        FirstCallAmong(config, rules, children[1..], depth, path, Render(config, node, depth, path + [index], out))
  }

  ghost predicate CompactsWith(config: Config, rules: TabCompaction.TextRules) {
    forall out, start, depth :: config.compact(out, start, depth) == CompactTabs(rules, out, start, depth)
  }

  /** The call sees records numbered from 0 on, drops something, and each tab line names its own
    record. */
  ghost predicate FirstOfItsRender(c: TabCompaction.Call) {
    && c.Valid() && !TabCompaction.Idle(c.marks) && TabCompaction.UniquelyIndexed(c)
    && forall i :: 0 <= i < |c.records| ==> c.records[i].index == i
  }

  lemma CompactNumbered(config: Config, rules: TabCompaction.TextRules, out: Output, start: nat, depth: nat)
    requires CompactsWith(config, rules)
    ensures
      var c := TabCompaction.CallOf(rules, out.lines, out.records, start, depth);
      Numbered(out) ==>
        if TabCompaction.Idle(c.marks) then Numbered(config.compact(out, start, depth)) else FirstOfItsRender(c)
  {
    if Numbered(out) {
      NumberedOutput(config, rules, out, start, depth);
    }
  }

  lemma NumberedOutput(config: Config, rules: TabCompaction.TextRules, out: Output, start: nat, depth: nat)
    requires CompactsWith(config, rules) && Numbered(out)
    ensures
      var c := TabCompaction.CallOf(rules, out.lines, out.records, start, depth);
      if TabCompaction.Idle(c.marks) then Numbered(config.compact(out, start, depth)) else FirstOfItsRender(c)
  {
    NumberedCall(rules, out, start, depth);
    assert config.compact(out, start, depth) == CompactTabs(rules, out, start, depth);
  }

  /** What `FirstCall` promises. */
  ghost predicate UniqueUntil(first: Option<TabCompaction.Call>, after: Output) {
    match first
    case None => Numbered(after)
    case Some(c) => FirstOfItsRender(c)
  }

  lemma RenderedUnique(
    config: Config, rules: TabCompaction.TextRules, node: Node, depth: nat, path: IndexPath, out: Output, below: Output)
    requires |out.records| < config.maxNodes && depth <= config.maxDepth
    requires !config.policy.elides(node) && !config.policy.hidesChildren(node)
    requires CompactsWith(config, rules)
    requires
      var own := Append(config, out, Entry(node, depth, path));
      && below == RenderAll(config, node.children, depth + 1, path, own)
      && UniqueUntil(FirstCallAmong(config, rules, node.children, depth + 1, path, own), below)
    ensures UniqueUntil(FirstCall(config, rules, node, depth, path, out), Render(config, node, depth, path, out))
  {
    var own := Append(config, out, Entry(node, depth, path));
    CompactNumbered(config, rules, below, |own.lines|, depth + 1);
  }

  lemma {:induction false} FirstCallUnique(
    config: Config, rules: TabCompaction.TextRules, node: Node, depth: nat, path: IndexPath, out: Output)
    requires CompactsWith(config, rules) && DescribesWithoutDigit(config.policy) && Numbered(out)
    ensures UniqueUntil(FirstCall(config, rules, node, depth, path, out), Render(config, node, depth, path, out))
    decreases node, 0
  {
    if |out.records| >= config.maxNodes || depth > config.maxDepth {
    } else if config.policy.elides(node) {
      FirstCallAmongUnique(config, rules, node.children, depth, path, out);
    } else {
      var own := Append(config, out, Entry(node, depth, path));
      AppendNumbered(config, out, Entry(node, depth, path));
      if !config.policy.hidesChildren(node) {
        FirstCallAmongUnique(config, rules, node.children, depth + 1, path, own);
        RenderedUnique(config, rules, node, depth, path, out, RenderAll(config, node.children, depth + 1, path, own));
      }
    }
  }

  lemma {:induction false} FirstCallAmongUnique(
    config: Config, rules: TabCompaction.TextRules, children: seq<Child>, depth: nat, path: IndexPath, out: Output)
    requires CompactsWith(config, rules) && DescribesWithoutDigit(config.policy) && Numbered(out)
    ensures UniqueUntil(FirstCallAmong(config, rules, children, depth, path, out),
                        RenderAll(config, children, depth, path, out))
    decreases children, 1
  {
    if children != [] {
      var Child(index, node) := children[0];
      assert node < children[0];
      FirstCallUnique(config, rules, node, depth, path + [index], out);
      if FirstCall(config, rules, node, depth, path + [index], out).None? {
        var mid := Render(config, node, depth, path + [index], out);
        FirstCallAmongUnique(config, rules, children[1..], depth, path, mid);
      }
    }
  }

  /** A render for a browser is uniquely indexed as long as no compaction drops anything, and the
    first compaction that does works on uniquely indexed records, so that conservation of records
    holds of it. */
  lemma UniqueUpToFirstCall(
    policy: Policy, rules: TabCompaction.TextRules, maxNodes: nat, maxDepth: nat, node: Node, path: IndexPath)
    requires DescribesWithoutDigit(policy)
    ensures
      var config := RuntimeConfig(policy, rules, maxNodes, maxDepth, true);
      UniqueUntil(FirstCall(config, rules, node, 0, path, EMPTY), Render(config, node, 0, path, EMPTY))
  {
    FirstCallUnique(RuntimeConfig(policy, rules, maxNodes, maxDepth, true), rules, node, 0, path, EMPTY);
  }
}
