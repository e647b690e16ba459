/** Browser windows whose renders show what tab compaction can do to element indexes
  (native/computer-use-linux/runtime.py, `walk`, `compact_rendered_browser_tabs`): two records with
  one index, and a line that stays while its record goes. */
module CompactionExamples {
  import opened Wrappers
  import opened StringOps
  import opened AccessibilityTree
  import opened RenderedLines
  import opened TreeRendering
  import opened CompactedRendering
  import TabCompaction

  // ----- Tool bars of ten tabs

  /** A configuration, and the text of a tab's line after the element number. */
  datatype Scene = Scene(config: Config, rules: TabCompaction.TextRules, text: string)

  ghost predicate Suits(s: Scene) {
    && s.config.maxNodes >= 40 && s.config.maxDepth >= 2 && DescribesWithoutDigit(s.config.policy)
    && |s.text| > 1 && s.text[0] == ' ' && '(' !in s.text && StartsWithRole(s.rules.fold, s.text[1..], "page tab")
    && s.rules.sanitize("") != "1"
  }

  predicate Whole(s: Scene, node: Node) {
    !s.config.policy.elides(node) && !s.config.policy.hidesChildren(node)
  }

  predicate StandsAlone(s: Scene, node: Node) {
    !s.config.policy.elides(node) && s.config.policy.hidesChildren(node)
  }

  predicate IsTab(s: Scene, node: Node, selected: bool) {
    && StandsAlone(s, node) && s.config.policy.describe(node) == s.text
    && node.attributes.value == "" && node.attributes.isSelected == selected
  }

  /** A bar of ten tabs, one of them selected. */
  ghost predicate IsBar(s: Scene, bar: Node, active: nat) {
    && Whole(s, bar) && |bar.children| == 10 && active < 10
    && forall k :: 0 <= k < 10 ==> bar.children[k].index == k && IsTab(s, bar.children[k].node, k == active)
  }

  // ----- Rendering ten tabs

  function LeafEntries(children: seq<Child>, depth: nat, path: IndexPath): seq<Entry> {
    seq(|children|, k requires 0 <= k < |children| => Entry(children[k].node, depth, path + [children[k].index]))
  }

  /** Children that stand for theirs are recorded one after the other. */
  lemma {:induction false} RenderLeaves(config: Config, children: seq<Child>, depth: nat, path: IndexPath, out: Output)
    requires depth <= config.maxDepth && |out.records| + |children| <= config.maxNodes
    requires forall c :: c in children ==> !config.policy.elides(c.node) && config.policy.hidesChildren(c.node)
    ensures Appends(config.policy, out, RenderAll(config, children, depth, path, out),
                    LeafEntries(children, depth, path))
    decreases |children|
  {
    if children == [] {
      assert out.records + Records([], |out.records|) == out.records;
      assert out.lines + Lines(config.policy, [], |out.records|) == out.lines;
    } else {
      var Child(index, node) := children[0];
      assert children[0] in children;
      var entry := Entry(node, depth, path + [index]);
      var own := Append(config, out, entry);
      AppendAppends(config, out, entry);
      RenderLeaves(config, children[1..], depth, path, own);
      AppendsConcat(config.policy, out, own, RenderAll(config, children[1..], depth, path, own), [entry],
                    LeafEntries(children[1..], depth, path));
      assert [entry] + LeafEntries(children[1..], depth, path) == LeafEntries(children, depth, path);
    }
  }

  /** Record j of a bar whose first tab has index `base`. */
  function TabRecord(bar: Node, base: nat, j: nat, p: IndexPath): Record
    requires base <= j < base + 10 && |bar.children| == 10
  {
    RecordOf(bar.children[j - base].node, j, p + [bar.children[j - base].index])
  }

  /** `tabs` is `own` with the ten tabs of the bar at `p` after it. */
  ghost predicate ShowsTabs(s: Scene, own: Output, tabs: Output, bar: Node, p: IndexPath) {
    && |bar.children| == 10
    && |tabs.records| == |own.records| + 10 && own.records <= tabs.records
    && |tabs.lines| == |own.lines| + 10 && own.lines <= tabs.lines
    && (forall j :: |own.records| <= j < |own.records| + 10 ==>
          tabs.records[j] == TabRecord(bar, |own.records|, j, p))
    && (forall i :: |own.lines| <= i < |own.lines| + 10 ==>
          tabs.lines[i] == ElementLine(2, |own.records| + (i - |own.lines|), s.text))
  }

  lemma ShowsAppended(s: Scene, own: Output, tabs: Output, bar: Node, active: nat, p: IndexPath)
    requires IsBar(s, bar, active) && Appends(s.config.policy, own, tabs, LeafEntries(bar.children, 2, p))
    ensures ShowsTabs(s, own, tabs, bar, p)
  {
  }

  lemma TabsRendered(s: Scene, own: Output, bar: Node, active: nat, p: IndexPath)
    requires Suits(s) && IsBar(s, bar, active) && |own.records| <= 30
    ensures ShowsTabs(s, own, RenderAll(s.config, bar.children, 2, p, own), bar, p)
    ensures Appends(s.config.policy, own, RenderAll(s.config, bar.children, 2, p, own), LeafEntries(bar.children, 2, p))
  {
    RenderLeaves(s.config, bar.children, 2, p, own);
    ShowsAppended(s, own, RenderAll(s.config, bar.children, 2, p, own), bar, active, p);
  }

  // ----- What compaction makes of them

  lemma {:induction false} ContainsChar(line: string, part: string, c: char)
    requires Contains(line, part) && c in part
    ensures c in line
  {
    if !(part <= line) {
      ContainsChar(line[1..], part, c);
    }
  }

  lemma NoParenthesis(depth: nat, index: nat, body: string)
    requires '(' !in body
    ensures '(' !in ElementLine(depth, index, body)
  {
    DigitsAreDigits(index);
    var line := ElementLine(depth, index, body);
    forall i | 0 <= i < |line| ensures line[i] != '(' {
      if i < depth {
        assert line[i] == Indent(depth)[i];
      } else if i < depth + |Digits(index)| {
        assert line[i] == Digits(index)[i - depth];
      } else {
        assert line[i] == body[i - depth - |Digits(index)|];
      }
    }
  }

  lemma DirectTab(fold: CaseFold, depth: nat, index: nat, body: string)
    requires |body| > 1 && body[0] == ' ' && StartsWithRole(fold, body[1..], "page tab")
    ensures IsDirectTabLine(fold, ElementLine(depth, index, body), depth)
  {
    var line := ElementLine(depth, index, body);
    var n := |Digits(index)|;
    DigitsAreDigits(index);
    DigitRunStops(Digits(index), body);
    assert line[depth..] == Digits(index) + body;
    assert line[depth..][n..] == body && line[depth..][n + 1..] == body[1..];
    assert line[depth] == Digits(index)[0];
  }

  /** What a tab's line looks like to compaction. */
  lemma TabLine(s: Scene, index: nat)
    requires Suits(s)
    ensures IsDirectTabLine(s.rules.fold, ElementLine(2, index, s.text), 2)
    ensures !Contains(ElementLine(2, index, s.text), "(selected")
    ensures RenderedElementIndex(ElementLine(2, index, s.text), 2) == Some(index)
  {
    DirectTab(s.rules.fold, 2, index, s.text);
    NoParenthesis(2, index, s.text);
    ReadIndex(2, index, s.text);
    if Contains(ElementLine(2, index, s.text), "(selected") {
      assert "(selected"[0] == '(';
      ContainsChar(ElementLine(2, index, s.text), "(selected", '(');
    }
  }

  lemma {:induction false} LastRecordWins(records: seq<Record>, i: nat)
    requires i < |records| && forall j :: i < j < |records| ==> records[j].index != records[i].index
    ensures
      var byIndex := TabCompaction.RecordsByIndex(records);
      records[i].index in byIndex && byIndex[records[i].index] == records[i]
    decreases |records|
  {
    if i < |records| - 1 {
      LastRecordWins(records[..|records| - 1], i);
    }
  }

  /** Ten tabs from position `first` on, one of them active. */
  ghost predicate TenTabs(marks: seq<TabCompaction.Mark>, first: nat, active: nat) {
    && |marks| == first + 10
    && (forall i :: 0 <= i < first ==> marks[i] == TabCompaction.NotTab)
    && forall i :: first <= i < first + 10 ==>
         (marks[i] == if i == first + active then TabCompaction.ActiveTab else TabCompaction.InactiveTab)
  }

  function CallOn(s: Scene, own: Output, tabs: Output): (c: TabCompaction.Call)
    ensures c.Valid()
  {
    TabCompaction.CallOf(s.rules, tabs.lines, tabs.records, |own.lines|, 2)
  }

  function Left(s: Scene, own: Output, tabs: Output): Output {
    CompactTabs(s.rules, tabs, |own.lines|, 2)
  }

  lemma TabActive(s: Scene, own: Output, tabs: Output, bar: Node, active: nat, p: IndexPath, j: nat)
    requires Suits(s) && IsBar(s, bar, active) && ShowsTabs(s, own, tabs, bar, p)
    requires |own.records| <= j < |own.records| + 10
    ensures
      TabCompaction.IsActiveTabLine(s.rules, ElementLine(2, j, s.text), 2, TabCompaction.RecordsByIndex(tabs.records))
      <==> j == |own.records| + active
  {
    TabLine(s, j);
    assert tabs.records[j].index == j;
    LastRecordWins(tabs.records, j);
  }

  lemma TabMarked(s: Scene, own: Output, tabs: Output, bar: Node, active: nat, p: IndexPath, i: nat)
    requires Suits(s) && IsBar(s, bar, active) && ShowsTabs(s, own, tabs, bar, p)
    requires |own.lines| <= i < |own.lines| + 10
    ensures
      var c := CallOn(s, own, tabs);
      && c.numbers[i] == Some(|own.records| + (i - |own.lines|))
      && (c.marks[i]
          == if i == |own.lines| + active then TabCompaction.ActiveTab else TabCompaction.InactiveTab)
  {
    var j := |own.records| + (i - |own.lines|);
    TabActive(s, own, tabs, bar, active, p, j);
    MarkedAs(s, own, tabs, i, j);
  }

  lemma MarkedAs(s: Scene, own: Output, tabs: Output, i: nat, j: nat)
    requires Suits(s) && |own.lines| <= i < |tabs.lines| && tabs.lines[i] == ElementLine(2, j, s.text)
    ensures
      var c := CallOn(s, own, tabs);
      && c.numbers[i] == Some(j)
      && c.marks[i]
         == if TabCompaction.IsActiveTabLine(s.rules, ElementLine(2, j, s.text), 2,
                                             TabCompaction.RecordsByIndex(tabs.records))
            then TabCompaction.ActiveTab else TabCompaction.InactiveTab
  {
    CallAt(s, own, tabs, i);
    TabLine(s, j);
  }

  lemma CallAt(s: Scene, own: Output, tabs: Output, i: nat)
    requires |own.lines| <= i < |tabs.lines|
    ensures
      var c := CallOn(s, own, tabs);
      && c.numbers[i] == RenderedElementIndex(tabs.lines[i], 2)
      && c.marks[i]
         == TabCompaction.MarkOf(s.rules, tabs.lines[i], 2, TabCompaction.RecordsByIndex(tabs.records))
  {
  }

  lemma TabsMarked(s: Scene, own: Output, tabs: Output, bar: Node, active: nat, p: IndexPath)
    requires Suits(s) && IsBar(s, bar, active) && ShowsTabs(s, own, tabs, bar, p)
    ensures TenTabs(CallOn(s, own, tabs).marks, |own.lines|, active)
    ensures !TabCompaction.Idle(CallOn(s, own, tabs).marks)
    ensures CallOn(s, own, tabs).Dropped() == 9 && CallOn(s, own, tabs).FirstTab() == |own.lines|
  {
    forall i | |own.lines| <= i < |own.lines| + 10
      ensures CallOn(s, own, tabs).marks[i]
           == if i == |own.lines| + active then TabCompaction.ActiveTab else TabCompaction.InactiveTab
    {
      TabMarked(s, own, tabs, bar, active, p, i);
    }
    NineDropped(CallOn(s, own, tabs).marks, |own.lines|, active);
  }

  lemma {:induction false} WhereRun(
    marks: seq<TabCompaction.Mark>, test: TabCompaction.Mark -> bool, from: nat, to: nat)
    requires from <= to <= |marks|
    requires forall i :: from <= i < to ==> test(marks[i])
    ensures |TabCompaction.Where(marks, test, from)| == |TabCompaction.Where(marks, test, to)| + (to - from)
    decreases |marks| - from
  {
    if from < to {
      WhereRun(marks, test, from + 1, to);
    }
  }

  lemma {:induction false} WhereNone(
    marks: seq<TabCompaction.Mark>, test: TabCompaction.Mark -> bool, from: nat, to: nat)
    requires from <= to <= |marks|
    requires forall i :: from <= i < to ==> !test(marks[i])
    ensures TabCompaction.Where(marks, test, from) == TabCompaction.Where(marks, test, to)
    decreases |marks| - from
  {
    if from < to {
      WhereNone(marks, test, from + 1, to);
    }
  }

  lemma {:induction false} WhereAtMost(marks: seq<TabCompaction.Mark>, test: TabCompaction.Mark -> bool, from: nat)
    requires from <= |marks|
    ensures |TabCompaction.Where(marks, test, from)| <= |marks| - from
    decreases |marks| - from
  {
    if from < |marks| {
      WhereAtMost(marks, test, from + 1);
    }
  }

  /** Nine of the ten tabs go. */
  lemma NineDropped(marks: seq<TabCompaction.Mark>, first: nat, active: nat)
    requires TenTabs(marks, first, active) && active < 10
    ensures !TabCompaction.Idle(marks) && |TabCompaction.Where(marks, TabCompaction.IsInactive, 0)| == 9
    ensures TabCompaction.Where(marks, TabCompaction.IsTab, 0)[0] == first
  {
    WhereNone(marks, TabCompaction.IsTab, 0, first);
    WhereRun(marks, TabCompaction.IsTab, first, first + 10);
    WhereNone(marks, TabCompaction.IsInactive, 0, first);
    WhereRun(marks, TabCompaction.IsInactive, first, first + active);
    WhereNone(marks, TabCompaction.IsInactive, first + active, first + active + 1);
    WhereRun(marks, TabCompaction.IsInactive, first + active + 1, first + 10);
    TabCompaction.WhereIsExact(marks, TabCompaction.IsActive, 0);
    assert first + active in TabCompaction.Where(marks, TabCompaction.IsActive, 0);
  }

  lemma LineStays(c: TabCompaction.Call, lines: seq<string>, records: seq<Record>, i: nat)
    requires c.Valid() && TabCompaction.Compacts(c, lines, records) && !TabCompaction.Idle(c.marks)
    requires i < |c.marks| && TabCompaction.Stays(c.marks[i])
    ensures c.lines[i] in lines
  {
    TabCompaction.LinesConserved(c, lines, records);
    TabCompaction.WhereIsExact(c.marks, TabCompaction.Stays, 0);
    var kept := TabCompaction.Where(c.marks, TabCompaction.Stays, 0);
    var k :| 0 <= k < |kept| && kept[k] == i;
    var rest := lines[..c.FirstTab()] + lines[c.FirstTab() + 1..];
    assert rest[k] == c.lines[i];
  }

  /** What is left of a bar: the lines before it, and two more, one of them the active tab's. */
  ghost predicate LinesLeft(s: Scene, own: Output, left: Output, active: nat) {
    && own.lines <= left.lines && |left.lines| == |own.lines| + 2
    && ElementLine(2, |own.records| + active, s.text) in left.lines
  }

  lemma LinesAreLeft(s: Scene, own: Output, tabs: Output, bar: Node, active: nat, p: IndexPath)
    requires Suits(s) && IsBar(s, bar, active) && ShowsTabs(s, own, tabs, bar, p)
    ensures LinesLeft(s, own, Left(s, own, tabs), active)
  {
    TabsMarked(s, own, tabs, bar, active, p);
    LinesOfCall(s, own, tabs, CallOn(s, own, tabs), Left(s, own, tabs), active);
  }

  lemma LinesOfCall(s: Scene, own: Output, tabs: Output, c: TabCompaction.Call, left: Output, active: nat)
    requires c == CallOn(s, own, tabs) && TabCompaction.Compacts(c, left.lines, left.records)
    requires TenTabs(c.marks, |own.lines|, active) && active < 10 && !TabCompaction.Idle(c.marks) && c.Dropped() == 9
    requires own.lines <= tabs.lines
    requires tabs.lines[|own.lines| + active] == ElementLine(2, |own.records| + active, s.text)
    ensures LinesLeft(s, own, left, active)
  {
    SizeLeft(c, left, |own.lines|);
    PrefixLeft(s, own, tabs, left);
    ActiveStays(c.marks, |own.lines|, active);
    LineStays(c, left.lines, left.records, |own.lines| + active);
  }

  lemma SizeLeft(c: TabCompaction.Call, left: Output, before: nat)
    requires c.Valid() && TabCompaction.Compacts(c, left.lines, left.records) && !TabCompaction.Idle(c.marks)
    requires |c.marks| == before + 10 && c.Dropped() == 9
    ensures |left.lines| == before + 2
  {
    TabCompaction.LinesConserved(c, left.lines, left.records);
  }

  lemma ActiveStays(marks: seq<TabCompaction.Mark>, first: nat, active: nat)
    requires TenTabs(marks, first, active) && active < 10
    ensures TabCompaction.Stays(marks[first + active])
  {
  }

  lemma PrefixLeft(s: Scene, own: Output, tabs: Output, left: Output)
    requires TabCompaction.Compacts(CallOn(s, own, tabs), left.lines, left.records) && own.lines <= tabs.lines
    ensures own.lines <= left.lines
  {
    TabCompaction.PrefixKept(s.rules, tabs.lines, tabs.records, |own.lines|, 2, left.lines, left.records);
    assert tabs.lines[..|own.lines|] == own.lines;
  }

  /** The numbers of the dropped tabs. */
  predicate IsDropped(own: Output, active: nat, n: nat) {
    |own.records| <= n < |own.records| + 10 && n != |own.records| + active
  }

  lemma OmittedAt(c: TabCompaction.Call, i: nat, n: nat)
    requires c.Valid() && i < |c.marks| && c.marks[i] == TabCompaction.InactiveTab && c.numbers[i] == Some(n)
    ensures n in TabCompaction.Omitted(c.marks, c.numbers, 0)
  {
  }

  lemma OmittedFrom(c: TabCompaction.Call, n: nat) returns (i: nat)
    requires c.Valid() && n in TabCompaction.Omitted(c.marks, c.numbers, 0)
    ensures i < |c.marks| && c.marks[i] == TabCompaction.InactiveTab && c.numbers[i] == Some(n)
  {
    i :| 0 <= i < |c.marks| && c.marks[i] == TabCompaction.InactiveTab && c.numbers[i] == Some(n);
  }

  lemma DroppedNumbers(s: Scene, own: Output, tabs: Output, bar: Node, active: nat, p: IndexPath, n: nat)
    requires Suits(s) && IsBar(s, bar, active) && ShowsTabs(s, own, tabs, bar, p)
    ensures n in TabCompaction.Omitted(CallOn(s, own, tabs).marks, CallOn(s, own, tabs).numbers, 0)
       <==> IsDropped(own, active, n)
  {
    var c := CallOn(s, own, tabs);
    if IsDropped(own, active, n) {
      var i := |own.lines| + (n - |own.records|);
      TabMarked(s, own, tabs, bar, active, p, i);
      OmittedAt(c, i, n);
    }
    if n in TabCompaction.Omitted(c.marks, c.numbers, 0) {
      var i := OmittedFrom(c, n);
      TabsMarked(s, own, tabs, bar, active, p);
      TabMarked(s, own, tabs, bar, active, p, i);
    }
  }

  /** The records that are left are those that have the number of no dropped tab. */
  lemma RecordsAreLeft(s: Scene, own: Output, tabs: Output, bar: Node, active: nat, p: IndexPath, r: Record)
    requires Suits(s) && IsBar(s, bar, active) && ShowsTabs(s, own, tabs, bar, p)
    ensures r in Left(s, own, tabs).records <==> r in tabs.records && !IsDropped(own, active, r.index)
  {
    var c := CallOn(s, own, tabs);
    TabsMarked(s, own, tabs, bar, active, p);
    DroppedNumbers(s, own, tabs, bar, active, p, r.index);
    TabCompaction.WithoutIndexesKeeps(tabs.records, TabCompaction.Omitted(c.marks, c.numbers, 0), r);
  }

  /** The first bar of a render leaves one record. */
  lemma FirstBarCount(s: Scene, own: Output, tabs: Output, bar: Node, active: nat, p: IndexPath)
    requires Suits(s) && IsBar(s, bar, active) && ShowsTabs(s, own, tabs, bar, p) && Numbered(tabs)
    ensures |Left(s, own, tabs).records| == |own.records| + 1
  {
    TabsMarked(s, own, tabs, bar, active, p);
    NumberedCall(s.rules, tabs, |own.lines|, 2);
    TabCompaction.RecordsConserved(CallOn(s, own, tabs), Left(s, own, tabs).lines, Left(s, own, tabs).records);
  }

  // ----- A window's first bar

  /** Few lines mean no compaction. */
  lemma FewLinesIdle(rules: TabCompaction.TextRules, out: Output, start: nat, depth: nat)
    requires |out.lines| < TabCompaction.MIN_TABS
    ensures CompactTabs(rules, out, start, depth) == out
  {
    var c := TabCompaction.CallOf(rules, out.lines, out.records, start, depth);
    WhereAtMost(c.marks, TabCompaction.IsTab, 0);
  }

  lemma RenderTwo(
    config: Config, node: Node, depth: nat, path: IndexPath, out: Output, first: Output, second: Output)
    requires |out.records| < config.maxNodes && depth <= config.maxDepth && |node.children| == 2
    requires !config.policy.elides(node) && !config.policy.hidesChildren(node)
    requires
      var a, b := node.children[0], node.children[1];
      var own := Append(config, out, Entry(node, depth, path));
      && first == Render(config, a.node, depth + 1, path + [a.index], own)
      && second == Render(config, b.node, depth + 1, path + [b.index], first)
    ensures Render(config, node, depth, path, out) == config.compact(second, |out.lines| + 1, depth + 1)
  {
    var own := Append(config, out, Entry(node, depth, path));
    var rest := node.children[1..];
    assert rest[0] == node.children[1] && rest[1..] == [];
    assert RenderAll(config, rest[1..], depth + 1, path, second) == second;
    assert RenderAll(config, rest, depth + 1, path, first) == second;
  }

  lemma RenderLeaf(config: Config, node: Node, depth: nat, path: IndexPath, out: Output)
    requires |out.records| < config.maxNodes && depth <= config.maxDepth
    requires !config.policy.elides(node) && config.policy.hidesChildren(node)
    ensures Render(config, node, depth, path, out) == Append(config, out, Entry(node, depth, path))
  {
  }

  lemma RenderWhole(config: Config, node: Node, depth: nat, path: IndexPath, out: Output)
    requires |out.records| < config.maxNodes && depth <= config.maxDepth
    requires !config.policy.elides(node) && !config.policy.hidesChildren(node)
    ensures
      var own := Append(config, out, Entry(node, depth, path));
      Render(config, node, depth, path, out)
      == config.compact(RenderAll(config, node.children, depth + 1, path, own), |own.lines|, depth + 1)
  {
  }

  /** The window and its first bar. */
  function FirstTwo(s: Scene, window: Node, bar: Node): Output {
    Append(s.config, Append(s.config, EMPTY, Entry(window, 0, [0])), Entry(bar, 1, [0, 0]))
  }

  lemma FirstTwoNumbered(s: Scene, window: Node, bar: Node)
    requires Suits(s)
    ensures Numbered(FirstTwo(s, window, bar)) && |FirstTwo(s, window, bar).records| == 2
  {
    AppendNumbered(s.config, EMPTY, Entry(window, 0, [0]));
    AppendNumbered(s.config, Append(s.config, EMPTY, Entry(window, 0, [0])), Entry(bar, 1, [0, 0]));
  }

  /** Three records and four lines are left; the active tab keeps both. */
  ghost predicate ThreeLeft(s: Scene, bar: Node, active: nat, left: Output) {
    && |bar.children| == 10 && active < 10
    && |left.records| == 3 && |left.lines| == 4
    && TabRecord(bar, 2, 2 + active, [0, 0]) in left.records
    && ElementLine(2, 2 + active, s.text) in left.lines
  }

  lemma FirstBar(s: Scene, own: Output, tabs: Output, bar: Node, active: nat)
    requires Suits(s) && IsBar(s, bar, active) && Numbered(own) && |own.records| == 2
    requires tabs == RenderAll(s.config, bar.children, 2, [0, 0], own)
    ensures ThreeLeft(s, bar, active, Left(s, own, tabs))
  {
    TabsRendered(s, own, bar, active, [0, 0]);
    AppendsNumbered(s.config.policy, own, tabs, LeafEntries(bar.children, 2, [0, 0]));
    LinesAreLeft(s, own, tabs, bar, active, [0, 0]);
    FirstBarCount(s, own, tabs, bar, active, [0, 0]);
    assert tabs.records[2 + active] in tabs.records;
    RecordsAreLeft(s, own, tabs, bar, active, [0, 0], tabs.records[2 + active]);
  }

  // ----- Two records with one index

  /** Two records of different nodes have one index. */
  ghost predicate Collides(records: seq<Record>) {
    exists i, j :: 0 <= i < j < |records| && records[i].index == records[j].index
      && records[i].runtimeId != records[j].runtimeId
  }

  lemma ButtonCollides(s: Scene, bar: Node, left: Output, button: Node)
    requires |bar.children| == 10 && bar.children[1].index == 1 && ThreeLeft(s, bar, 1, left)
    ensures Collides(Append(s.config, left, Entry(button, 1, [0, 1])).records)
  {
    var out := Append(s.config, left, Entry(button, 1, [0, 1]));
    var kept := TabRecord(bar, 2, 3, [0, 0]);
    var i :| 0 <= i < |left.records| && left.records[i] == kept;
    assert |kept.runtimeId| == 3;
    assert out.records[i] == kept && out.records[3] == RecordOf(button, 3, [0, 1]);
  }

  lemma ButtonAfterBar(s: Scene, window: Node, bar: Node, button: Node, left: Output, out: Output)
    requires Suits(s) && IsBar(s, bar, 1) && Whole(s, window) && StandsAlone(s, button)
    requires window.children == [Child(0, bar), Child(1, button)] && ThreeLeft(s, bar, 1, left)
    requires left == Render(s.config, bar, 1, [0, 0], Append(s.config, EMPTY, Entry(window, 0, [0])))
    requires out == Append(s.config, left, Entry(button, 1, [0, 1])) && s.config.compact(out, 1, 1) == out
    ensures Collides(Render(s.config, window, 0, [0], EMPTY).records)
  {
    assert [0] + [0] == [0, 0] && [0] + [1] == [0, 1];
    RenderLeaf(s.config, button, 1, [0, 1], left);
    RenderTwo(s.config, window, 0, [0], EMPTY, left, out);
    ButtonCollides(s, bar, left, button);
  }

  // ----- A line without its record

  /** Some line shows an element, and no record has its number. */
  ghost predicate LosesRecord(out: Output, text: string) {
    exists i, n: nat :: 0 <= i < |out.lines| && out.lines[i] == ElementLine(2, n, text)
      && forall r :: r in out.records ==> r.index != n
  }

  /** After a bar that left the line of tab 11, the tabs of the next bar are numbered 4 to 13. */
  lemma SecondBar(s: Scene, first: Output, own: Output, tabs: Output, bar: Node)
    requires Suits(s) && IsBar(s, bar, 0) && |first.records| == 3 && |first.lines| == 4
    requires ElementLine(2, 11, s.text) in first.lines
    requires own == Append(s.config, first, Entry(bar, 1, [0, 1]))
    requires tabs == RenderAll(s.config, bar.children, 2, [0, 1], own)
    ensures LosesRecord(Left(s, own, tabs), s.text) && |Left(s, own, tabs).lines| == 7
  {
    var left := Left(s, own, tabs);
    TabsRendered(s, own, bar, 0, [0, 1]);
    LinesAreLeft(s, own, tabs, bar, 0, [0, 1]);
    forall r | r in left.records ensures r.index != 11 {
      RecordsAreLeft(s, own, tabs, bar, 0, [0, 1], r);
    }
    var i :| 0 <= i < |first.lines| && first.lines[i] == ElementLine(2, 11, s.text);
    assert own.lines[i] == first.lines[i] && left.lines[i] == own.lines[i];
  }

  lemma BarAfterBar(s: Scene, window: Node, bar: Node, bar': Node, left: Output, left': Output)
    requires Suits(s) && Whole(s, window) && window.children == [Child(0, bar), Child(1, bar')]
    requires left == Render(s.config, bar, 1, [0, 0], Append(s.config, EMPTY, Entry(window, 0, [0])))
    requires left' == Render(s.config, bar', 1, [0, 1], left)
    requires LosesRecord(left', s.text) && s.config.compact(left', 1, 1) == left'
    ensures LosesRecord(Render(s.config, window, 0, [0], EMPTY), s.text)
  {
    assert [0] + [0] == [0, 0] && [0] + [1] == [0, 1];
    RenderTwo(s.config, window, 0, [0], EMPTY, left, left');
  }

  // ----- The browser's own configuration

  const NAMELESS := Attributes("", "", "", "", [], false, false, false, false)

  function Leaf(role: string, selected: bool): Node {
    Node(NAMELESS.(role := role, name := "x", isSelected := selected), [])
  }

  function TabsFrom(k: nat, active: nat): seq<Child>
    decreases 10 - k
  {
    if k >= 10 then [] else [Child(k, Leaf("page tab", k == active))] + TabsFrom(k + 1, active)
  }

  function Bar(active: nat): Node {
    Node(NAMELESS.(role := "tool bar"), TabsFrom(0, active))
  }

  function Window(first: Node, second: Node): Node {
    Node(NAMELESS.(role := "frame"), [Child(0, first), Child(1, second)])
  }

  const BUTTON := Leaf("push button", false)

  function TitleOf(node: Node): string {
    var a := node.attributes;
    " " + a.role + if a.name == "" then "" else " " + a.name
  }

  const TEXTS := Texts(s => s, s => s, actions => [], (node: Node) => None, TitleOf)

  const RULES := TabCompaction.TextRules(c => c, s => s)

  const BROWSER: Scene := Scene(RuntimeConfig(RuntimePolicy(TEXTS), RULES, 1200, 64, true), RULES, " page tab x")

  lemma {:induction false} TabsAt(k: nat, active: nat)
    requires k <= 10
    ensures |TabsFrom(k, active)| == 10 - k
    ensures forall i :: 0 <= i < 10 - k ==> TabsFrom(k, active)[i] == Child(k + i, Leaf("page tab", k + i == active))
    decreases 10 - k
  {
    if k < 10 {
      TabsAt(k + 1, active);
    }
  }

  lemma BrowserSuits()
    ensures Suits(BROWSER)
  {
    assert BROWSER.text[1..] == "page tab x";
  }

  lemma Tabs(selected: bool)
    ensures IsTab(BROWSER, Leaf("page tab", selected), selected)
  {
    assert " " + "page tab" + " x" == " page tab x";
  }

  lemma Bars(active: nat)
    requires active < 10
    ensures IsBar(BROWSER, Bar(active), active) && WellFormed(Bar(active))
  {
    TabsAt(0, active);
    var children := TabsFrom(0, active);
    forall k | 0 <= k < 10 ensures IsTab(BROWSER, children[k].node, k == active) {
      Tabs(k == active);
    }
    LeavesWellFormed(active, children);
  }

  lemma LeavesWellFormed(active: nat, children: seq<Child>)
    requires |children| == 10 && forall k :: 0 <= k < 10 ==> children[k].node == Leaf("page tab", k == active)
    ensures forall c :: c in children ==> WellFormed(c.node)
  {
    forall c | c in children ensures WellFormed(c.node) {
      var k :| 0 <= k < 10 && children[k] == c;
      assert c.node.children == [];
    }
  }

  lemma Frames(first: Node, second: Node)
    ensures Whole(BROWSER, Window(first, second)) && StandsAlone(BROWSER, BUTTON)
    ensures WellFormed(first) && WellFormed(second) ==> WellFormed(Window(first, second))
    ensures WellFormed(BUTTON)
  {
  }

  lemma BrowserIdle(out: Output)
    requires |out.lines| < TabCompaction.MIN_TABS
    ensures BROWSER.config.compact(out, 1, 1) == out
  {
    FewLinesIdle(RULES, out, 1, 1);
  }

  lemma BrowserBar(bar: Node, active: nat, p: IndexPath, out: Output)
    requires IsBar(BROWSER, bar, active) && |out.records| < 30
    ensures
      var own := Append(BROWSER.config, out, Entry(bar, 1, p));
      Render(BROWSER.config, bar, 1, p, out)
      == Left(BROWSER, own, RenderAll(BROWSER.config, bar.children, 2, p, own))
  {
    RenderWhole(BROWSER.config, bar, 1, p, out);
  }

  lemma BrowserFirstBar(window: Node, bar: Node, active: nat)
    requires IsBar(BROWSER, bar, active)
    ensures
      var own := Append(BROWSER.config, EMPTY, Entry(window, 0, [0]));
      ThreeLeft(BROWSER, bar, active, Render(BROWSER.config, bar, 1, [0, 0], own))
  {
    BrowserSuits();
    var own := FirstTwo(BROWSER, window, bar);
    FirstTwoNumbered(BROWSER, window, bar);
    FirstBar(BROWSER, own, RenderAll(BROWSER.config, bar.children, 2, [0, 0], own), bar, active);
    BrowserBar(bar, active, [0, 0], Append(BROWSER.config, EMPTY, Entry(window, 0, [0])));
  }

  lemma BrowserSecondBar(bar: Node, first: Output)
    requires IsBar(BROWSER, bar, 0) && |first.records| == 3 && |first.lines| == 4
    requires ElementLine(2, 11, BROWSER.text) in first.lines
    ensures LosesRecord(Render(BROWSER.config, bar, 1, [0, 1], first), BROWSER.text)
    ensures |Render(BROWSER.config, bar, 1, [0, 1], first).lines| == 7
  {
    BrowserSuits();
    var own := Append(BROWSER.config, first, Entry(bar, 1, [0, 1]));
    SecondBar(BROWSER, first, own, RenderAll(BROWSER.config, bar.children, 2, [0, 1], own), bar);
    BrowserBar(bar, 0, [0, 1], first);
  }

  lemma CollidesIn(window: Node, bar: Node, button: Node)
    requires IsBar(BROWSER, bar, 1) && Whole(BROWSER, window) && StandsAlone(BROWSER, button)
    requires window.children == [Child(0, bar), Child(1, button)]
    ensures Collides(Render(BROWSER.config, window, 0, [0], EMPTY).records)
  {
    BrowserSuits();
    BrowserFirstBar(window, bar, 1);
    var left := Render(BROWSER.config, bar, 1, [0, 0], Append(BROWSER.config, EMPTY, Entry(window, 0, [0])));
    var out := Append(BROWSER.config, left, Entry(button, 1, [0, 1]));
    BrowserIdle(out);
    ButtonAfterBar(BROWSER, window, bar, button, left, out);
  }

  lemma LosesIn(window: Node, bar: Node, bar': Node)
    requires IsBar(BROWSER, bar, 9) && IsBar(BROWSER, bar', 0) && Whole(BROWSER, window)
    requires window.children == [Child(0, bar), Child(1, bar')]
    ensures LosesRecord(Render(BROWSER.config, window, 0, [0], EMPTY), BROWSER.text)
  {
    BrowserSuits();
    BrowserFirstBar(window, bar, 9);
    var left := Render(BROWSER.config, bar, 1, [0, 0], Append(BROWSER.config, EMPTY, Entry(window, 0, [0])));
    BrowserSecondBar(bar', left);
    var left' := Render(BROWSER.config, bar', 1, [0, 1], left);
    BrowserIdle(left');
    BarAfterBar(BROWSER, window, bar, bar', left, left');
  }

  /** Indexes of a whole render can collide: in this window the selected tab keeps index 3, and the
    button after the tool bar, rendered when three records are left, takes it again. */
  lemma IndexesCollide()
    ensures WellFormed(Window(Bar(1), BUTTON))
    ensures Collides(Render(BROWSER.config, Window(Bar(1), BUTTON), 0, [0], EMPTY).records)
  {
    Bars(1);
    Frames(Bar(1), BUTTON);
    CollidesIn(Window(Bar(1), BUTTON), Bar(1), BUTTON);
  }

  /** A line can stay while its record goes: in this window the first bar's selected tab keeps its
    line and index 11; the second bar's tabs are numbered 4 to 13, and dropping its tab 11 removes
    both records of that number. */
  lemma RecordOfStayingLineLost()
    ensures WellFormed(Window(Bar(9), Bar(0)))
    ensures LosesRecord(Render(BROWSER.config, Window(Bar(9), Bar(0)), 0, [0], EMPTY), BROWSER.text)
  {
    Bars(9);
    Bars(0);
    Frames(Bar(9), Bar(0));
    LosesIn(Window(Bar(9), Bar(0)), Bar(9), Bar(0));
  }
}
