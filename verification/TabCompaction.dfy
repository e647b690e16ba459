/** Compacting a run of browser tabs (native/computer-use-linux/runtime.py,
  `compact_rendered_browser_tabs`): what one call leaves of the lines and the records. */
module TabCompaction {
  import opened Wrappers
  import opened Collections
  import opened AccessibilityTree
  import opened RenderedLines

  const MIN_TABS: nat := 10

  /** The given text functions: case folding of one character and whitespace clean-up. */
  datatype TextRules = TextRules(fold: CaseFold, sanitize: string -> string)

  /** `{int(item["index"]): item for item in records}`: later records win. */
  function RecordsByIndex(records: seq<Record>): (m: map<nat, Record>)
    ensures forall k :: k in m ==> m[k] in records && m[k].index == k
    ensures forall r :: r in records ==> r.index in m
  {
    if records == [] then map[]
    else
      var last := records[|records| - 1];
      assert records == records[..|records| - 1] + [last];
      RecordsByIndex(records[..|records| - 1])[last.index := last]
  }

  predicate IsActiveTabLine(rules: TextRules, line: string, depth: nat, byIndex: map<nat, Record>) {
    var index := RenderedElementIndex(line, depth);
    Contains(line, "(selected") ||
    (index.Some? && index.value in byIndex &&
     (byIndex[index.value].isSelected || rules.sanitize(byIndex[index.value].value) == "1"))
  }

  /** What a line is to one call: the lines before its start are never tabs. */
  datatype Mark = NotTab | ActiveTab | InactiveTab

  function MarkOf(rules: TextRules, line: string, depth: nat, byIndex: map<nat, Record>): Mark {
    if !IsDirectTabLine(rules.fold, line, depth) then NotTab
    else if IsActiveTabLine(rules, line, depth, byIndex) then ActiveTab
    else InactiveTab
  }

  function Marks(rules: TextRules, lines: seq<string>, records: seq<Record>, start: nat, depth: nat): (marks: seq<Mark>)
    ensures |marks| == |lines|
  {
    var byIndex := RecordsByIndex(records);
    seq(|lines|, i requires 0 <= i < |lines| =>
      if i < start then NotTab else MarkOf(rules, lines[i], depth, byIndex))
  }

  function Numbers(lines: seq<string>, depth: nat): (numbers: seq<Option<nat>>)
    ensures |numbers| == |lines|
  {
    seq(|lines|, i requires 0 <= i < |lines| => RenderedElementIndex(lines[i], depth))
  }

  // ----- Positions

  predicate IsTab(m: Mark) {
    m != NotTab
  }

  predicate IsActive(m: Mark) {
    m == ActiveTab
  }

  predicate IsInactive(m: Mark) {
    m == InactiveTab
  }

  predicate Stays(m: Mark) {
    m != InactiveTab
  }

  /** The positions from `from` on whose mark passes a test, in order. */
  function Where(marks: seq<Mark>, test: Mark -> bool, from: nat): (found: seq<nat>)
    ensures forall k :: 0 <= k < |found| ==> from <= found[k] < |marks|
    decreases |marks| - from
  {
    if from >= |marks| then []
    else if test(marks[from]) then [from] + Where(marks, test, from + 1)
    else Where(marks, test, from + 1)
  }

  /** `Where` lists exactly the positions that pass, each once, ascending. */
  lemma {:induction false} WhereIsExact(marks: seq<Mark>, test: Mark -> bool, from: nat)
    ensures forall p :: p in Where(marks, test, from) <==> from <= p < |marks| && test(marks[p])
    decreases |marks| - from
  {
    if from < |marks| {
      WhereIsExact(marks, test, from + 1);
    }
  }

  ghost predicate Ascends(s: seq<nat>) {
    forall j, k :: 0 <= j < k < |s| ==> s[j] < s[k]
  }

  lemma AscendsCons(first: nat, s: seq<nat>)
    requires Ascends(s) && forall k :: 0 <= k < |s| ==> first < s[k]
    ensures Ascends([first] + s)
  {
  }

  lemma {:induction false} WhereAscends(marks: seq<Mark>, test: Mark -> bool, from: nat)
    ensures Ascends(Where(marks, test, from))
    decreases |marks| - from
  {
    if from < |marks| {
      WhereAscends(marks, test, from + 1);
      AscendsCons(from, Where(marks, test, from + 1));
    }
  }

  function LinesAt(lines: seq<string>, positions: seq<nat>): seq<string>
    requires forall k :: 0 <= k < |positions| ==> positions[k] < |lines|
  {
    seq(|positions|, k requires 0 <= k < |positions| => lines[positions[k]])
  }

  /** The lines from `from` on that are not inactive tabs. */
  function Remaining(lines: seq<string>, marks: seq<Mark>, from: nat): seq<string>
    requires |marks| == |lines|
    decreases |lines| - from
  {
    if from >= |lines| then []
    else if Stays(marks[from]) then [lines[from]] + Remaining(lines, marks, from + 1)
    else Remaining(lines, marks, from + 1)
  }

  /** The indexes read off the dropped lines from `from` on. */
  function Omitted(marks: seq<Mark>, numbers: seq<Option<nat>>, from: nat): set<nat>
    requires |numbers| == |marks|
  {
    set i | from <= i < |marks| && marks[i] == InactiveTab && numbers[i].Some? :: numbers[i].value
  }

  function WithoutIndexes(records: seq<Record>, omitted: set<nat>): seq<Record> {
    if records == [] then []
    else if records[0].index in omitted then WithoutIndexes(records[1..], omitted)
    else [records[0]] + WithoutIndexes(records[1..], omitted)
  }

  /** Fewer than ten direct tabs, none active, or none inactive. */
  predicate Idle(marks: seq<Mark>) {
    |Where(marks, IsTab, 0)| < MIN_TABS || Where(marks, IsActive, 0) == [] || Where(marks, IsInactive, 0) == []
  }

  /** One call's view of the renderer's lists. */
  datatype Call = Call(
    lines: seq<string>, records: seq<Record>, marks: seq<Mark>, numbers: seq<Option<nat>>, depth: nat)
  {
    predicate Valid() {
      |marks| == |numbers| == |lines|
    }

    function Dropped(): nat {
      |Where(marks, IsInactive, 0)|
    }

    function FirstTab(): nat
      requires !Idle(marks)
    {
      Where(marks, IsTab, 0)[0]
    }
  }

  function CallOf(rules: TextRules, lines: seq<string>, records: seq<Record>, start: nat, depth: nat): (c: Call)
    ensures c.Valid()
  {
    Call(lines, records, Marks(rules, lines, records, start, depth), Numbers(lines, depth), depth)
  }

  function CompactedLines(c: Call): seq<string>
    requires c.Valid()
  {
    if Idle(c.marks) then c.lines
    else
      c.lines[..c.FirstTab()] + [Marker(c.depth, c.Dropped())]
      + Remaining(c.lines, c.marks, c.FirstTab())
  }

  function CompactedRecords(c: Call): seq<Record>
    requires c.Valid()
  {
    if Idle(c.marks) then c.records else WithoutIndexes(c.records, Omitted(c.marks, c.numbers, 0))
  }

  /** What one call leaves. */
  ghost predicate Compacts(c: Call, lines: seq<string>, records: seq<Record>)
    requires c.Valid()
  {
    lines == CompactedLines(c) && records == CompactedRecords(c)
  }

  // ----- Conservation of lines

  lemma {:induction false} RemainingCount(lines: seq<string>, marks: seq<Mark>, from: nat)
    requires from <= |marks| == |lines|
    ensures |Remaining(lines, marks, from)| + |Where(marks, IsInactive, from)| == |marks| - from
    decreases |marks| - from
  {
    if from < |marks| {
      RemainingCount(lines, marks, from + 1);
    }
  }

  lemma LinesAtCons(lines: seq<string>, first: nat, rest: seq<nat>)
    requires first < |lines| && forall k :: 0 <= k < |rest| ==> rest[k] < |lines|
    ensures LinesAt(lines, [first] + rest) == [lines[first]] + LinesAt(lines, rest)
  {
  }

  /** The remaining lines are those at the ascending positions that stay. */
  lemma {:induction false} RemainingAt(lines: seq<string>, marks: seq<Mark>, from: nat)
    requires |marks| == |lines|
    ensures Remaining(lines, marks, from) == LinesAt(lines, Where(marks, Stays, from))
    decreases |marks| - from
  {
    if from < |marks| {
      RemainingAt(lines, marks, from + 1);
      LinesAtCons(lines, from, Where(marks, Stays, from + 1));
    }
  }

  /** Lines that stay are copied. */
  lemma {:induction false} RemainingBefore(lines: seq<string>, marks: seq<Mark>, from: nat, until: nat)
    requires from <= until <= |marks| == |lines|
    requires forall i :: from <= i < until ==> Stays(marks[i])
    ensures Remaining(lines, marks, from) == lines[from..until] + Remaining(lines, marks, until)
    ensures Where(marks, IsInactive, from) == Where(marks, IsInactive, until)
    decreases until - from
  {
    if from < until {
      RemainingBefore(lines, marks, from + 1, until);
      SliceCons(lines, from, until, Remaining(lines, marks, until));
    } else {
      assert lines[from..until] == [];
    }
  }

  lemma NothingDroppedBeforeFirstTab(c: Call)
    requires c.Valid() && !Idle(c.marks)
    ensures c.FirstTab() < |c.lines|
    ensures forall i :: 0 <= i < c.FirstTab() ==> c.marks[i] == NotTab
  {
    var tabs := Where(c.marks, IsTab, 0);
    WhereIsExact(c.marks, IsTab, 0);
    WhereAscends(c.marks, IsTab, 0);
    FirstIsLeast(tabs);
  }

  lemma FirstIsLeast(s: seq<nat>)
    requires s != [] && Ascends(s)
    ensures s[0] in s && forall i :: i in s ==> s[0] <= i
  {
  }

  /** Removing the marker leaves exactly the lines that are not inactive tabs, in their old
    order; the marker stands at the first tab's position and its number is the number of lines
    removed. */
  lemma LinesConserved(c: Call, lines: seq<string>, records: seq<Record>)
    requires c.Valid() && Compacts(c, lines, records) && !Idle(c.marks)
    ensures c.FirstTab() < |lines| == |c.lines| - c.Dropped() + 1
    ensures lines[c.FirstTab()] == Marker(c.depth, c.Dropped())
    ensures lines[..c.FirstTab()] + lines[c.FirstTab() + 1..] == LinesAt(c.lines, Where(c.marks, Stays, 0))
  {
    var first := c.FirstTab();
    NothingDroppedBeforeFirstTab(c);
    RemainingBefore(c.lines, c.marks, 0, first);
    RemainingCount(c.lines, c.marks, first);
    RemainingAt(c.lines, c.marks, 0);
    WithoutMarker(c.lines[..first], Marker(c.depth, c.Dropped()), Remaining(c.lines, c.marks, first));
  }

  lemma WithoutMarker(before: seq<string>, marker: string, after: seq<string>)
    ensures
      var lines := before + [marker] + after;
      lines[|before|] == marker && lines[..|before|] + lines[|before| + 1..] == before + after
  {
  }

  // ----- The loops

  lemma CallMarks(rules: TextRules, lines: seq<string>, records: seq<Record>, start: nat, depth: nat)
    ensures
      var c := CallOf(rules, lines, records, start, depth);
      forall i :: 0 <= i < |lines| ==>
        && (IsTab(c.marks[i]) <==> start <= i && IsDirectTabLine(rules.fold, lines[i], depth))
        && (IsTab(c.marks[i]) ==>
              (c.marks[i] == ActiveTab <==> IsActiveTabLine(rules, lines[i], depth, RecordsByIndex(records))))
  {
  }

  lemma WhereStep(marks: seq<Mark>, tabs: seq<nat>, i: nat, isTab: bool)
    requires i < |marks| && (isTab <==> IsTab(marks[i]))
    ensures tabs + Where(marks, IsTab, i) == (if isTab then tabs + [i] else tabs) + Where(marks, IsTab, i + 1)
  {
  }

  lemma ActiveAmongTabs(marks: seq<Mark>, active: set<nat>)
    requires forall i :: i in active <==> i in Where(marks, IsTab, 0) && marks[i] == ActiveTab
    ensures active == {} <==> Where(marks, IsActive, 0) == []
  {
    WhereIsExact(marks, IsTab, 0);
    WhereIsExact(marks, IsActive, 0);
    var found := Where(marks, IsActive, 0);
    assert forall i :: i in active <==> i in found;
    if found != [] {
      assert found[0] in active;
    }
  }

  lemma {:induction false} SkipNonTabs(marks: seq<Mark>, from: nat, start: nat)
    requires from <= start
    requires forall i :: from <= i < start && i < |marks| ==> marks[i] == NotTab
    ensures Where(marks, IsTab, from) == Where(marks, IsTab, start)
    decreases start - from
  {
    if from < start {
      SkipNonTabs(marks, from + 1, start);
    }
  }

  /** The lines once every inactive tab from `b` on has been deleted. */
  ghost function DeletedFrom(c: Call, b: nat): seq<string>
    requires c.Valid() && b <= |c.lines|
  {
    c.lines[..b] + Remaining(c.lines, c.marks, b)
  }

  lemma NoTabStrictlyBetween(marks: seq<Mark>, tabs: seq<nat>, k: nat, b: nat)
    requires tabs == Where(marks, IsTab, 0) && k < |tabs|
    requires b == if k + 1 < |tabs| then tabs[k + 1] else |marks|
    ensures tabs[k] < b <= |marks|
    ensures forall j :: tabs[k] < j < b ==> marks[j] == NotTab
  {
    WhereIsExact(marks, IsTab, 0);
    WhereAscends(marks, IsTab, 0);
    forall j | tabs[k] < j < b ensures marks[j] == NotTab {
      BetweenNeighbours(tabs, k, j);
    }
  }

  lemma BetweenNeighbours(s: seq<nat>, k: nat, j: nat)
    requires Ascends(s) && k < |s| && s[k] < j && (k + 1 < |s| ==> j < s[k + 1])
    ensures j !in s
  {
    forall m | 0 <= m < |s| ensures s[m] != j {
      if m < k {
        assert s[m] < s[k];
      } else if m > k + 1 {
        assert s[k + 1] < s[m];
      }
    }
  }

  lemma NoTabBeforeFirst(marks: seq<Mark>, tabs: seq<nat>)
    requires tabs == Where(marks, IsTab, 0) && tabs != []
    ensures forall j :: 0 <= j < tabs[0] ==> marks[j] == NotTab
  {
    WhereIsExact(marks, IsTab, 0);
    WhereAscends(marks, IsTab, 0);
    FirstIsLeast(tabs);
  }

  /** The two states of the deletion loop agree at positions `i` and `b`. */
  ghost predicate SameDeletions(c: Call, i: nat, b: nat)
    requires c.Valid() && i <= |c.lines| && b <= |c.lines|
  {
    && DeletedFrom(c, i) == DeletedFrom(c, b)
    && |Where(c.marks, IsInactive, i)| == |Where(c.marks, IsInactive, b)|
    && Omitted(c.marks, c.numbers, i) == Omitted(c.marks, c.numbers, b)
  }

  lemma KeepLine(c: Call, i: nat)
    requires c.Valid() && i < |c.lines| && Stays(c.marks[i])
    ensures SameDeletions(c, i, i + 1)
  {
    TakeSnoc(c.lines, i, Remaining(c.lines, c.marks, i + 1));
  }

  lemma TakeSnoc(lines: seq<string>, i: nat, rest: seq<string>)
    requires i < |lines|
    ensures lines[..i] + ([lines[i]] + rest) == lines[..i + 1] + rest
  {
  }

  /** Between two consecutive tabs nothing is deleted. */
  lemma {:induction false} NoTabBetween(c: Call, i: nat, b: nat)
    requires c.Valid() && i <= b <= |c.lines|
    requires forall j :: i <= j < b ==> c.marks[j] == NotTab
    ensures SameDeletions(c, i, b)
    decreases b - i
  {
    if i < b {
      KeepLine(c, i);
      NoTabBetween(c, i + 1, b);
    }
  }

  lemma DropLine(c: Call, i: nat)
    requires c.Valid() && i < |c.lines| && c.marks[i] == InactiveTab
    ensures i < |DeletedFrom(c, i + 1)|
    ensures DeletedFrom(c, i) == DeletedFrom(c, i + 1)[..i] + DeletedFrom(c, i + 1)[i + 1..]
    ensures |Where(c.marks, IsInactive, i)| == |Where(c.marks, IsInactive, i + 1)| + 1
    ensures Omitted(c.marks, c.numbers, i)
         == Omitted(c.marks, c.numbers, i + 1) + (if c.numbers[i].Some? then {c.numbers[i].value} else {})
  {
    assert c.lines[..i + 1] == c.lines[..i] + [c.lines[i]];
  }

  /** One turn of the deletion loop: `b` is the next tab after tab `k`, or the end. */
  lemma DeletionStep(c: Call, tabs: seq<nat>, k: nat, b: nat)
    requires c.Valid() && tabs == Where(c.marks, IsTab, 0) && k < |tabs|
    requires b == if k + 1 < |tabs| then tabs[k + 1] else |c.lines|
    ensures
      var i := tabs[k];
      && i < b <= |c.lines| && IsTab(c.marks[i])
      && i < |DeletedFrom(c, b)| && DeletedFrom(c, b)[i] == c.lines[i]
      && (c.marks[i] == ActiveTab ==> SameDeletions(c, i, b))
      && (c.marks[i] == InactiveTab ==>
            && DeletedFrom(c, i) == DeletedFrom(c, b)[..i] + DeletedFrom(c, b)[i + 1..]
            && |Where(c.marks, IsInactive, i)| == |Where(c.marks, IsInactive, b)| + 1
            && Omitted(c.marks, c.numbers, i)
               == Omitted(c.marks, c.numbers, b) + (if c.numbers[i].Some? then {c.numbers[i].value} else {}))
  {
    var i := tabs[k];
    WhereIsExact(c.marks, IsTab, 0);
    assert i in tabs;
    NoTabStrictlyBetween(c.marks, tabs, k, b);
    NoTabBetween(c, i + 1, b);
    if c.marks[i] == ActiveTab {
      KeepLine(c, i);
    } else {
      DropLine(c, i);
    }
    assert DeletedFrom(c, b)[i] == DeletedFrom(c, i + 1)[i] == c.lines[i];
  }

  /** The state of the deletion once the tabs from `b` on have been handled. */
  ghost predicate DeletedTo(c: Call, b: nat, lines: seq<string>, count: nat, omitted: set<nat>)
    requires c.Valid() && b <= |c.lines|
  {
    && lines == DeletedFrom(c, b)
    && count == |Where(c.marks, IsInactive, b)|
    && omitted == Omitted(c.marks, c.numbers, b)
  }

  /** One turn of the deletion loop, at the tab before `b`. */
  lemma DeletionAdvances(c: Call, tabs: seq<nat>, k: nat, b: nat, lines: seq<string>, count: nat, omitted: set<nat>)
    requires c.Valid() && tabs == Where(c.marks, IsTab, 0) && k < |tabs|
    requires b == if k + 1 < |tabs| then tabs[k + 1] else |c.lines|
    requires DeletedTo(c, b, lines, count, omitted)
    ensures
      var i := tabs[k];
      && IsTab(c.marks[i]) && i < |lines| && lines[i] == c.lines[i]
      && (c.marks[i] == ActiveTab ==> DeletedTo(c, i, lines, count, omitted))
      && (c.marks[i] == InactiveTab ==>
            DeletedTo(c, i, lines[..i] + lines[i + 1..], count + 1,
                      omitted + (if c.numbers[i].Some? then {c.numbers[i].value} else {})))
  {
    DeletionStep(c, tabs, k, b);
  }

  /** After the last turn nothing is left to delete in front. */
  lemma DeletionEnds(c: Call, tabs: seq<nat>)
    requires c.Valid() && tabs == Where(c.marks, IsTab, 0) && tabs != []
    ensures |Where(c.marks, IsInactive, tabs[0])| == c.Dropped()
    ensures Omitted(c.marks, c.numbers, tabs[0]) == Omitted(c.marks, c.numbers, 0)
  {
    NoTabBeforeFirst(c.marks, tabs);
    NoTabBetween(c, 0, tabs[0]);
  }

  /** Without inactive tabs the deletion loop changes nothing. */
  lemma NothingDropped(c: Call, first: nat)
    requires c.Valid() && first <= |c.lines| && Where(c.marks, IsInactive, 0) == []
    ensures DeletedFrom(c, first) == c.lines
  {
    WhereIsExact(c.marks, IsInactive, 0);
    RemainingBefore(c.lines, c.marks, first, |c.lines|);
  }

  /** Lines before the call's start are untouched. */
  lemma PrefixKept(rules: TextRules, lines: seq<string>, records: seq<Record>, start: nat, depth: nat,
                   lines': seq<string>, records': seq<Record>)
    requires Compacts(CallOf(rules, lines, records, start, depth), lines', records')
    requires start <= |lines|
    ensures lines[..start] <= lines'
  {
    var c := CallOf(rules, lines, records, start, depth);
    CallMarks(rules, lines, records, start, depth);
    if !Idle(c.marks) {
      var tabs := Where(c.marks, IsTab, 0);
      WhereIsExact(c.marks, IsTab, 0);
      assert tabs[0] in tabs;
      assert lines[..start] <= lines[..c.FirstTab()];
    }
  }

  lemma NoNewRecords(c: Call, lines: seq<string>, records: seq<Record>)
    requires c.Valid() && Compacts(c, lines, records)
    ensures |records| <= |c.records|
    ensures forall r :: r in records ==> r in c.records
  {
    if !Idle(c.marks) {
      var omitted := Omitted(c.marks, c.numbers, 0);
      NotLonger(c.records, omitted);
      forall r | r in records ensures r in c.records {
        WithoutIndexesKeeps(c.records, omitted, r);
      }
    }
  }

  lemma {:induction false} NotLonger(records: seq<Record>, omitted: set<nat>)
    ensures |WithoutIndexes(records, omitted)| <= |records|
  {
    if records != [] {
      NotLonger(records[1..], omitted);
    }
  }

  // ----- Conservation of records

  lemma {:induction false} WithoutIndexesKeeps(records: seq<Record>, omitted: set<nat>, r: Record)
    ensures r in WithoutIndexes(records, omitted) <==> r in records && r.index !in omitted
  {
    if records != [] {
      WithoutIndexesKeeps(records[1..], omitted, r);
      assert records == [records[0]] + records[1..];
    }
  }

  ghost function IndexSet(records: seq<Record>): set<nat> {
    set r | r in records :: r.index
  }

  ghost predicate DistinctIndexes(records: seq<Record>) {
    forall j, k :: 0 <= j < k < |records| ==> records[j].index != records[k].index
  }

  lemma IndexSetOfTail(records: seq<Record>)
    requires records != [] && DistinctIndexes(records)
    ensures DistinctIndexes(records[1..])
    ensures IndexSet(records) == {records[0].index} + IndexSet(records[1..])
    ensures records[0].index !in IndexSet(records[1..])
  {
    assert records == [records[0]] + records[1..];
  }

  lemma {:induction false} WithoutIndexesCount(records: seq<Record>, omitted: set<nat>)
    requires DistinctIndexes(records) && omitted <= IndexSet(records)
    ensures |WithoutIndexes(records, omitted)| == |records| - |omitted|
  {
    if records == [] {
      assert omitted == {};
    } else {
      var index, tail := records[0].index, records[1..];
      IndexSetOfTail(records);
      var fewer := omitted - {index};
      assert fewer <= IndexSet(tail);
      WithoutIndexesCount(tail, fewer);
      assert WithoutIndexes(tail, omitted) == WithoutIndexes(tail, fewer) by {
        WithoutIndexesSame(tail, omitted, fewer);
      }
      assert |fewer| == |omitted| - (if index in omitted then 1 else 0) by {
        assert index !in omitted ==> omitted == fewer;
      }
    }
  }

  lemma {:induction false} WithoutIndexesSame(records: seq<Record>, a: set<nat>, b: set<nat>)
    requires forall r :: r in records ==> (r.index in a <==> r.index in b)
    ensures WithoutIndexes(records, a) == WithoutIndexes(records, b)
  {
    if records != [] {
      assert records[0] in records;
      WithoutIndexesSame(records[1..], a, b);
    }
  }

  /** Indexes are unique among the records, and each direct tab line names its own record. */
  ghost predicate UniquelyIndexed(c: Call)
    requires c.Valid()
  {
    && DistinctIndexes(c.records)
    && (forall i :: 0 <= i < |c.marks| && IsTab(c.marks[i]) ==>
          c.numbers[i].Some? && c.numbers[i].value in IndexSet(c.records))
    && (forall i, j :: 0 <= i < j < |c.marks| && IsTab(c.marks[i]) && IsTab(c.marks[j]) ==>
          c.numbers[i] != c.numbers[j])
  }

  lemma OmittedStep(c: Call, from: nat)
    requires c.Valid() && UniquelyIndexed(c) && from < |c.marks|
    ensures
      var later := Omitted(c.marks, c.numbers, from + 1);
      if c.marks[from] == InactiveTab then
        c.numbers[from].Some? && c.numbers[from].value !in later
        && Omitted(c.marks, c.numbers, from) == later + {c.numbers[from].value}
      else Omitted(c.marks, c.numbers, from) == later
  {
  }

  lemma {:induction false} OmittedCount(c: Call, from: nat)
    requires c.Valid() && UniquelyIndexed(c)
    ensures |Omitted(c.marks, c.numbers, from)| == |Where(c.marks, IsInactive, from)|
    decreases |c.marks| - from
  {
    if from >= |c.marks| {
      assert Omitted(c.marks, c.numbers, from) == {};
    } else {
      OmittedStep(c, from);
      OmittedCount(c, from + 1);
    }
  }

  /** The records at ascending positions, so in their old order. */
  ghost predicate KeepsOrder(records: seq<Record>, left: seq<Record>, positions: seq<nat>) {
    && |positions| == |left| && Ascends(positions)
    && forall k :: 0 <= k < |positions| ==> positions[k] < |records| && left[k] == records[positions[k]]
  }

  function ShiftedByOne(positions: seq<nat>): seq<nat> {
    seq(|positions|, k requires 0 <= k < |positions| => positions[k] + 1)
  }

  lemma OrderShifts(records: seq<Record>, left: seq<Record>, positions: seq<nat>)
    requires records != [] && KeepsOrder(records[1..], left, positions)
    ensures KeepsOrder(records, left, ShiftedByOne(positions))
  {
  }

  lemma OrderCons(records: seq<Record>, left: seq<Record>, positions: seq<nat>)
    requires records != [] && KeepsOrder(records[1..], left, positions)
    ensures KeepsOrder(records, [records[0]] + left, [0] + ShiftedByOne(positions))
  {
    OrderShifts(records, left, positions);
    AscendsCons(0, ShiftedByOne(positions));
  }

  lemma {:induction false} WithoutIndexesOrder(records: seq<Record>, omitted: set<nat>) returns (positions: seq<nat>)
    ensures KeepsOrder(records, WithoutIndexes(records, omitted), positions)
  {
    if records == [] {
      positions := [];
    } else {
      var later := WithoutIndexesOrder(records[1..], omitted);
      var left := WithoutIndexes(records[1..], omitted);
      if records[0].index in omitted {
        OrderShifts(records, left, later);
        positions := ShiftedByOne(later);
      } else {
        OrderCons(records, left, later);
        positions := [0] + ShiftedByOne(later);
      }
    }
  }

  /** Exactly the records of the dropped lines go, one for each, and the others keep their order. */
  lemma RecordsConserved(c: Call, lines: seq<string>, records: seq<Record>)
    requires c.Valid() && Compacts(c, lines, records) && !Idle(c.marks) && UniquelyIndexed(c)
    ensures |records| == |c.records| - c.Dropped()
    ensures exists positions :: KeepsOrder(c.records, records, positions)
    ensures forall r :: r in records <==>
      (r in c.records && forall i :: 0 <= i < |c.marks| && c.marks[i] == InactiveTab ==> c.numbers[i] != Some(r.index))
  {
    var omitted := Omitted(c.marks, c.numbers, 0);
    OmittedCount(c, 0);
    WithoutIndexesCount(c.records, omitted);
    var positions := WithoutIndexesOrder(c.records, omitted);
    forall r ensures r in records <==> r in c.records && r.index !in omitted {
      WithoutIndexesKeeps(c.records, omitted, r);
    }
  }

  ghost predicate ShownByDropped(c: Call, number: Option<nat>)
    requires c.Valid()
  {
    exists i :: 0 <= i < |c.marks| && c.marks[i] == InactiveTab && c.numbers[i] == number
  }

  /** Without unique indexes a call can remove records of lines that stay.  The record that a staying
    line shows is lost exactly if some dropped line shows the same number. */
  lemma StayingRecordLostIff(c: Call, lines: seq<string>, records: seq<Record>, j: nat)
    requires c.Valid() && Compacts(c, lines, records) && j < |c.marks|
    requires Stays(c.marks[j]) && c.numbers[j].Some? && c.numbers[j].value in IndexSet(c.records)
    ensures c.numbers[j].value !in IndexSet(records)
       <==> !Idle(c.marks) && ShownByDropped(c, c.numbers[j])
  {
    var omitted := Omitted(c.marks, c.numbers, 0);
    var n := c.numbers[j].value;
    forall r ensures r in WithoutIndexes(c.records, omitted) <==> r in c.records && r.index !in omitted {
      WithoutIndexesKeeps(c.records, omitted, r);
    }
    var shown :| shown in c.records && shown.index == n;
    assert n in omitted <==> ShownByDropped(c, c.numbers[j]);
    assert n !in omitted ==> shown in WithoutIndexes(c.records, omitted);
  }

  lemma {:induction false} WithoutIndexesDistinct(records: seq<Record>, omitted: set<nat>)
    requires DistinctIndexes(records)
    ensures DistinctIndexes(WithoutIndexes(records, omitted))
  {
    if records != [] {
      IndexSetOfTail(records);
      WithoutIndexesDistinct(records[1..], omitted);
      var left := WithoutIndexes(records[1..], omitted);
      forall r | r in left ensures r.index in IndexSet(records[1..]) {
        WithoutIndexesKeeps(records[1..], omitted, r);
      }
    }
  }

  /** How long indexes stay unique after a compaction.  New indexes are the current number of
    records; after a call that dropped some of the records numbered 0 .. n - 1, appending goes well
    exactly as long as every number below n that comes up again belonged to a dropped record. */
  lemma AppendedStayUnique(records: seq<Record>, omitted: set<nat>, added: seq<Record>)
    requires forall i :: 0 <= i < |records| ==> records[i].index == i
    requires forall k :: 0 <= k < |added| ==> added[k].index == |WithoutIndexes(records, omitted)| + k
    ensures
      var left := WithoutIndexes(records, omitted);
      DistinctIndexes(left + added)
      <==> forall j :: |left| <= j < |left| + |added| && j < |records| ==> j in omitted
  {
    var left := WithoutIndexes(records, omitted);
    var all := left + added;
    WithoutIndexesDistinct(records, omitted);
    forall r ensures r in left <==> r in records && r.index !in omitted {
      WithoutIndexesKeeps(records, omitted, r);
    }
    if j :| |left| <= j < |left| + |added| && j < |records| && j !in omitted {
      assert records[j] in left;
      var i :| 0 <= i < |left| && left[i] == records[j];
      assert all[i].index == j && all[|left| + (j - |left|)].index == j;
    } else {
      forall i, k | 0 <= i < k < |all| ensures all[i].index != all[k].index {
        if i < |left| <= k {
          assert all[i] in left && all[k] == added[k - |left|];
          assert records[all[i].index] == all[i];
        }
      }
    }
  }
}
