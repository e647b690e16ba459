/** What one compaction call does, said of the lines and records alone
  (native/computer-use-linux/runtime.py, `compact_rendered_browser_tabs`,
  `is_direct_rendered_browser_tab_line`, `is_active_rendered_browser_tab_line`). */
module CompactionMeaning {
  import opened Wrappers
  import opened StringOps
  import opened AccessibilityTree
  import opened RenderedLines
  import TabCompaction

  // ----- Lines and records

  /** The text begins with `k` digits, a blank and the role in any case, and the role ends there. */
  predicate NamesTab(fold: CaseFold, text: string, k: nat, role: string) {
    && 0 < k && k + 1 + |role| <= |text|
    && (forall i :: 0 <= i < k ==> '0' <= text[i] <= '9')
    && text[k] == ' '
    && (forall i :: 0 <= i < |role| ==> fold(text[k + 1 + i]) == role[i])
    && (var rest := text[k + 1 + |role|..];
        rest == "" || rest == "\n" || rest[0] == ' ' || rest[0] == '(' || rest[0] == ',')
  }

  /** A tab's line at this depth, showing element `number`. */
  ghost predicate ShowsTab(fold: CaseFold, line: string, depth: nat, number: nat) {
    && |line| >= depth && (forall i :: 0 <= i < depth ==> line[i] == '\t')
    && exists k: nat :: NamesAnyTab(fold, line[depth..], k) && ParseNat(line[depth..][..k]) == number
  }

  predicate NamesAnyTab(fold: CaseFold, text: string, k: nat) {
    NamesTab(fold, text, k, "page tab") || NamesTab(fold, text, k, "tab item") || NamesTab(fold, text, k, "tab")
  }

  /** The last record of that number is selected, or its value is 1. */
  ghost predicate LastIsActive(rules: TabCompaction.TextRules, records: seq<Record>, number: nat) {
    exists j: nat :: IsLastOf(records, j, number)
      && (records[j].isSelected || rules.sanitize(records[j].value) == "1")
  }

  predicate IsLastOf(records: seq<Record>, j: nat, number: nat) {
    j < |records| && records[j].index == number && forall l :: j < l < |records| ==> records[l].index != number
  }

  ghost predicate SaysSelected(line: string) {
    exists i: nat :: PartAt(line, "(selected", i)
  }

  predicate PartAt(line: string, part: string, i: nat) {
    i + |part| <= |line| && forall m :: 0 <= m < |part| ==> line[i + m] == part[m]
  }

  /** Line i is a tab of the call, with that number. */
  ghost predicate TabAt(
    rules: TabCompaction.TextRules, lines: seq<string>, start: nat, depth: nat, i: nat, number: nat)
  {
    start <= i < |lines| && ShowsTab(rules.fold, lines[i], depth, number)
  }

  ghost predicate IsTabAt(rules: TabCompaction.TextRules, lines: seq<string>, start: nat, depth: nat, i: nat) {
    exists number: nat :: TabAt(rules, lines, start, depth, i, number)
  }

  ghost predicate IsActiveAt(
    rules: TabCompaction.TextRules, lines: seq<string>, records: seq<Record>, start: nat, depth: nat, i: nat)
  {
    exists number: nat :: TabAt(rules, lines, start, depth, i, number)
      && (SaysSelected(lines[i]) || LastIsActive(rules, records, number))
  }

  /** Line i is to go. */
  ghost predicate Goes(
    rules: TabCompaction.TextRules, lines: seq<string>, records: seq<Record>, start: nat, depth: nat, i: nat)
  {
    IsTabAt(rules, lines, start, depth, i) && !IsActiveAt(rules, lines, records, start, depth, i)
  }

  ghost predicate NumberGoes(
    rules: TabCompaction.TextRules, lines: seq<string>, records: seq<Record>, start: nat, depth: nat, number: nat)
  {
    exists i: nat :: TabAt(rules, lines, start, depth, i, number) && Goes(rules, lines, records, start, depth, i)
  }

  ghost predicate Ascends(at: seq<nat>) {
    forall k, l :: 0 <= k < l < |at| ==> at[k] < at[l]
  }

  // ----- One call

  predicate IsMarker(line: string, depth: nat, omitted: nat) {
    && |line| >= depth && (forall i :: 0 <= i < depth ==> line[i] == '\t')
    && line[depth..] == "... " + Digits(omitted) + " inactive browser tabs omitted"
  }

  /** The lines that stay, in order, with the marker where the first tab stood. */
  ghost predicate LinesLeft(lines: seq<string>, kept: seq<nat>, first: nat, depth: nat, after: seq<string>) {
    && |after| == |kept| + 1 && first <= |kept| <= |lines|
    && IsMarker(after[first], depth, |lines| - |kept|)
    && forall k: nat :: k < |kept| ==> StandsAfter(lines, kept[k], first, after, k)
  }

  /** Line i stands k-th, not counting the marker. */
  predicate StandsAfter(lines: seq<string>, i: nat, first: nat, after: seq<string>, k: nat) {
    i < |lines| && k + 1 < |after| && lines[i] == (if k < first then after[k] else after[k + 1])
  }

  ghost predicate RecordsLeft(records: seq<Record>, kept: seq<nat>, after: seq<Record>) {
    |after| == |kept| && forall k :: 0 <= k < |kept| ==> kept[k] < |records| && after[k] == records[kept[k]]
  }

  /** With ten tabs or more, some active and some not, the tabs that are not active go, a marker with
    their number takes the first tab's place, and every record goes whose number a line showed that
    went; otherwise nothing changes. */
  ghost predicate CompactsTo(
    rules: TabCompaction.TextRules, lines: seq<string>, records: seq<Record>, start: nat, depth: nat,
    lines': seq<string>, records': seq<Record>)
  {
    exists tabs, kept, recs :: TabsAre(rules, lines, start, depth, tabs)
      && KeptAre(rules, lines, records, start, depth, kept)
      && RecordsAre(rules, lines, records, start, depth, recs)
      && if |tabs| < 10 || |kept| == |lines| || NoneActive(rules, lines, records, start, depth) then
           lines' == lines && records' == records
         else
           LinesLeft(lines, kept, tabs[0], depth, lines') && RecordsLeft(records, recs, records')
  }

  ghost predicate NoneActive(
    rules: TabCompaction.TextRules, lines: seq<string>, records: seq<Record>, start: nat, depth: nat)
  {
    forall i: nat :: i < |lines| ==> !IsActiveAt(rules, lines, records, start, depth, i)
  }

  /** The positions of the tabs. */
  ghost predicate TabsAre(rules: TabCompaction.TextRules, lines: seq<string>, start: nat, depth: nat, tabs: seq<nat>) {
    Ascends(tabs) && forall i: nat :: i in tabs <==> i < |lines| && IsTabAt(rules, lines, start, depth, i)
  }

  /** The positions of the lines that stay. */
  ghost predicate KeptAre(
    rules: TabCompaction.TextRules, lines: seq<string>, records: seq<Record>, start: nat, depth: nat, kept: seq<nat>)
  {
    Ascends(kept) && forall i: nat :: i in kept <==> i < |lines| && !Goes(rules, lines, records, start, depth, i)
  }

  /** The positions of the records that stay. */
  ghost predicate RecordsAre(
    rules: TabCompaction.TextRules, lines: seq<string>, records: seq<Record>, start: nat, depth: nat, recs: seq<nat>)
  {
    && Ascends(recs)
    && forall j: nat :: j in recs <==>
         j < |records| && !NumberGoes(rules, lines, records, start, depth, records[j].index)
  }

  // ----- Marks are what they should be

  lemma RunIs(text: string, k: nat)
    requires k < |text| && text[k] == ' ' && forall i :: 0 <= i < k ==> '0' <= text[i] <= '9'
    ensures DigitRun(text) == k
    decreases k
  {
    if k > 0 {
      RunIs(text[1..], k - 1);
    }
  }

  lemma RoleIs(fold: CaseFold, text: string, k: nat, role: string)
    requires 0 < k < |text| && text[k] == ' ' && forall i :: 0 <= i < k ==> '0' <= text[i] <= '9'
    ensures StartsWithRole(fold, text[k + 1..], role) <==> NamesTab(fold, text, k, role)
  {
    var rest := text[k + 1..];
    if |role| <= |rest| {
      assert rest[|role|..] == text[k + 1 + |role|..];
      forall i | 0 <= i < |role| ensures rest[i] == text[k + 1 + i] {
      }
    }
  }

  lemma TabTextIs(fold: CaseFold, text: string)
    ensures IsTabText(fold, text) <==> NamesAnyTab(fold, text, DigitRun(text))
  {
    var k := DigitRun(text);
    if 0 < k < |text| && text[k] == ' ' {
      RoleIs(fold, text, k, "page tab");
      RoleIs(fold, text, k, "tab item");
      RoleIs(fold, text, k, "tab");
    }
  }

  lemma IndentIs(line: string, depth: nat)
    ensures Indent(depth) <= line <==> |line| >= depth && forall i :: 0 <= i < depth ==> line[i] == '\t'
  {
    if |line| >= depth && forall i :: 0 <= i < depth ==> line[i] == '\t' {
      assert line[..depth] == Indent(depth);
    }
    if Indent(depth) <= line {
      assert forall i :: 0 <= i < depth ==> line[i] == Indent(depth)[i];
    }
  }

  lemma ShownIsDirect(fold: CaseFold, line: string, depth: nat, number: nat, k: nat)
    requires Indent(depth) <= line && NamesAnyTab(fold, line[depth..], k) && ParseNat(line[depth..][..k]) == number
    ensures IsDirectTabLine(fold, line, depth) && RenderedElementIndex(line, depth) == Some(number)
  {
    var text := line[depth..];
    RunIs(text, k);
    TabTextIs(fold, text);
    assert text[0] == line[depth];
  }

  lemma DirectIsShown(fold: CaseFold, line: string, depth: nat, number: nat)
    requires IsDirectTabLine(fold, line, depth) && RenderedElementIndex(line, depth) == Some(number)
    ensures ShowsTab(fold, line, depth, number)
  {
    IndentIs(line, depth);
    TabTextIs(fold, line[depth..]);
    assert NamesAnyTab(fold, line[depth..], DigitRun(line[depth..]));
  }

  /** The line test and the number read off the line are those of `ShowsTab`. */
  lemma TabLineIs(fold: CaseFold, line: string, depth: nat, number: nat)
    ensures ShowsTab(fold, line, depth, number) <==>
      IsDirectTabLine(fold, line, depth) && RenderedElementIndex(line, depth) == Some(number)
  {
    if ShowsTab(fold, line, depth, number) {
      IndentIs(line, depth);
      var k: nat :| NamesAnyTab(fold, line[depth..], k) && ParseNat(line[depth..][..k]) == number;
      ShownIsDirect(fold, line, depth, number, k);
    }
    if IsDirectTabLine(fold, line, depth) && RenderedElementIndex(line, depth) == Some(number) {
      DirectIsShown(fold, line, depth, number);
    }
  }

  lemma PartLater(line: string, part: string, i: nat)
    requires line != "" && PartAt(line[1..], part, i)
    ensures PartAt(line, part, i + 1)
  {
    forall m | 0 <= m < |part| ensures line[i + 1 + m] == part[m] {
      assert line[1..][i + m] == part[m];
    }
  }

  lemma PartEarlier(line: string, part: string, i: nat)
    requires i > 0 && PartAt(line, part, i)
    ensures PartAt(line[1..], part, i - 1)
  {
    forall m | 0 <= m < |part| ensures line[1..][i - 1 + m] == part[m] {
      assert line[i + m] == part[m];
    }
  }

  lemma PartAtStart(line: string, part: string)
    ensures PartAt(line, part, 0) <==> part <= line
  {
    if PartAt(line, part, 0) {
      assert part == line[..|part|];
    }
  }

  lemma {:induction false} PartIsContained(line: string, part: string, i: nat)
    requires PartAt(line, part, i)
    ensures Contains(line, part)
    decreases i
  {
    if i == 0 {
      PartAtStart(line, part);
    } else if line != "" {
      PartEarlier(line, part, i);
      PartIsContained(line[1..], part, i - 1);
    }
  }

  lemma {:induction false} ContainedIsPart(line: string, part: string) returns (i: nat)
    requires Contains(line, part)
    ensures PartAt(line, part, i)
    decreases |line|
  {
    if part <= line {
      PartAtStart(line, part);
      i := 0;
    } else {
      var k := ContainedIsPart(line[1..], part);
      PartLater(line, part, k);
      i := k + 1;
    }
  }

  lemma ContainsIs(line: string, part: string)
    ensures Contains(line, part) <==> exists i: nat :: PartAt(line, part, i)
  {
    if Contains(line, part) {
      var i := ContainedIsPart(line, part);
    }
    if i: nat :| PartAt(line, part, i) {
      PartIsContained(line, part, i);
    }
  }

  lemma {:induction false} LastWins(records: seq<Record>, j: nat, number: nat)
    requires IsLastOf(records, j, number)
    ensures
      var byIndex := TabCompaction.RecordsByIndex(records);
      number in byIndex && byIndex[number] == records[j]
    decreases |records|
  {
    if j < |records| - 1 {
      LastWins(records[..|records| - 1], j, number);
    }
  }

  lemma {:induction false} SomeLast(records: seq<Record>, r: Record) returns (j: nat)
    requires r in records
    ensures IsLastOf(records, j, r.index)
    decreases |records|
  {
    var last := |records| - 1;
    if records[last].index == r.index {
      j := last;
    } else {
      assert records == records[..last] + [records[last]];
      j := SomeLast(records[..last], r);
    }
  }

  lemma ActiveRecordIs(rules: TabCompaction.TextRules, records: seq<Record>, number: nat)
    ensures
      var byIndex := TabCompaction.RecordsByIndex(records);
      LastIsActive(rules, records, number) <==>
        number in byIndex && (byIndex[number].isSelected || rules.sanitize(byIndex[number].value) == "1")
  {
    var byIndex := TabCompaction.RecordsByIndex(records);
    if number in byIndex {
      var j := SomeLast(records, byIndex[number]);
      LastWins(records, j, number);
    }
    if LastIsActive(rules, records, number) {
      var j: nat :| IsLastOf(records, j, number)
        && (records[j].isSelected || rules.sanitize(records[j].value) == "1");
      LastWins(records, j, number);
    }
  }

  lemma SelectedIs(line: string)
    ensures Contains(line, "(selected") <==> SaysSelected(line)
  {
    ContainsIs(line, "(selected");
  }

  lemma MarkIs(
    rules: TabCompaction.TextRules, lines: seq<string>, records: seq<Record>, start: nat, depth: nat, i: nat)
    requires i < |lines|
    ensures
      var mark := TabCompaction.Marks(rules, lines, records, start, depth)[i];
      && (TabCompaction.IsTab(mark) <==> IsTabAt(rules, lines, start, depth, i))
      && (TabCompaction.IsActive(mark) <==> IsActiveAt(rules, lines, records, start, depth, i))
      && (TabCompaction.IsInactive(mark) <==> Goes(rules, lines, records, start, depth, i))
    ensures forall number: nat :: TabAt(rules, lines, start, depth, i, number) ==>
      RenderedElementIndex(lines[i], depth) == Some(number)
  {
    forall number: nat
      ensures ShowsTab(rules.fold, lines[i], depth, number) <==>
        IsDirectTabLine(rules.fold, lines[i], depth) && RenderedElementIndex(lines[i], depth) == Some(number)
    {
      TabLineIs(rules.fold, lines[i], depth, number);
    }
    if start <= i && IsDirectTabLine(rules.fold, lines[i], depth) {
      TabLineHasIndex(rules.fold, lines[i], depth);
      var number := RenderedElementIndex(lines[i], depth).value;
      assert TabAt(rules, lines, start, depth, i, number);
      ActiveRecordIs(rules, records, number);
      SelectedIs(lines[i]);
    }
  }

  // ----- The call does what it should

  lemma WhereAscendsHere(marks: seq<TabCompaction.Mark>, test: TabCompaction.Mark -> bool)
    ensures Ascends(TabCompaction.Where(marks, test, 0))
  {
    TabCompaction.WhereAscends(marks, test, 0);
  }

  lemma TabsFound(
    rules: TabCompaction.TextRules, lines: seq<string>, records: seq<Record>, start: nat, depth: nat)
    ensures
      var marks := TabCompaction.Marks(rules, lines, records, start, depth);
      && TabsAre(rules, lines, start, depth, TabCompaction.Where(marks, TabCompaction.IsTab, 0))
      && KeptAre(rules, lines, records, start, depth, TabCompaction.Where(marks, TabCompaction.Stays, 0))
      && (TabCompaction.Where(marks, TabCompaction.IsActive, 0) == []
          <==> NoneActive(rules, lines, records, start, depth))
  {
    var marks := TabCompaction.Marks(rules, lines, records, start, depth);
    WhereAscendsHere(marks, TabCompaction.IsTab);
    WhereAscendsHere(marks, TabCompaction.Stays);
    TabCompaction.WhereIsExact(marks, TabCompaction.IsTab, 0);
    TabCompaction.WhereIsExact(marks, TabCompaction.Stays, 0);
    TabCompaction.WhereIsExact(marks, TabCompaction.IsActive, 0);
    forall i: nat | i < |lines|
      ensures TabCompaction.IsTab(marks[i]) <==> IsTabAt(rules, lines, start, depth, i)
      ensures TabCompaction.IsActive(marks[i]) <==> IsActiveAt(rules, lines, records, start, depth, i)
      ensures TabCompaction.Stays(marks[i]) <==> !Goes(rules, lines, records, start, depth, i)
    {
      MarkIs(rules, lines, records, start, depth, i);
    }
    ActivePositions(rules, lines, records, start, depth);
  }

  lemma ActivePositions(
    rules: TabCompaction.TextRules, lines: seq<string>, records: seq<Record>, start: nat, depth: nat)
    ensures
      var marks := TabCompaction.Marks(rules, lines, records, start, depth);
      TabCompaction.Where(marks, TabCompaction.IsActive, 0) == [] <==> NoneActive(rules, lines, records, start, depth)
  {
    var marks := TabCompaction.Marks(rules, lines, records, start, depth);
    var active := TabCompaction.Where(marks, TabCompaction.IsActive, 0);
    TabCompaction.WhereIsExact(marks, TabCompaction.IsActive, 0);
    if active != [] {
      assert active[0] in active;
      MarkIs(rules, lines, records, start, depth, active[0]);
    } else {
      forall i: nat | i < |lines| ensures !IsActiveAt(rules, lines, records, start, depth, i) {
        MarkIs(rules, lines, records, start, depth, i);
        assert i !in active;
      }
    }
  }

  /** As many stay as are not inactive. */
  lemma {:induction false} StayCount(marks: seq<TabCompaction.Mark>, from: nat)
    requires from <= |marks|
    ensures |TabCompaction.Where(marks, TabCompaction.Stays, from)|
            + |TabCompaction.Where(marks, TabCompaction.IsInactive, from)| == |marks| - from
    decreases |marks| - from
  {
    if from < |marks| {
      StayCount(marks, from + 1);
    }
  }

  lemma OmittedGoes(
    rules: TabCompaction.TextRules, lines: seq<string>, records: seq<Record>, start: nat, depth: nat,
    number: nat, i: nat)
    requires
      var c := TabCompaction.CallOf(rules, lines, records, start, depth);
      i < |lines| && c.marks[i] == TabCompaction.InactiveTab && c.numbers[i] == Some(number)
    ensures NumberGoes(rules, lines, records, start, depth, number)
  {
    MarkIs(rules, lines, records, start, depth, i);
    var n: nat :| TabAt(rules, lines, start, depth, i, n);
    assert n == number;
  }

  lemma GoesOmitted(
    rules: TabCompaction.TextRules, lines: seq<string>, records: seq<Record>, start: nat, depth: nat,
    number: nat, i: nat)
    requires TabAt(rules, lines, start, depth, i, number) && Goes(rules, lines, records, start, depth, i)
    ensures
      var c := TabCompaction.CallOf(rules, lines, records, start, depth);
      i < |lines| && c.marks[i] == TabCompaction.InactiveTab && c.numbers[i] == Some(number)
  {
    MarkIs(rules, lines, records, start, depth, i);
  }

  lemma NumbersGo(
    rules: TabCompaction.TextRules, lines: seq<string>, records: seq<Record>, start: nat, depth: nat, number: nat)
    ensures
      var c := TabCompaction.CallOf(rules, lines, records, start, depth);
      number in TabCompaction.Omitted(c.marks, c.numbers, 0)
      <==> NumberGoes(rules, lines, records, start, depth, number)
  {
    var c := TabCompaction.CallOf(rules, lines, records, start, depth);
    if number in TabCompaction.Omitted(c.marks, c.numbers, 0) {
      var i: nat :| i < |c.marks| && c.marks[i] == TabCompaction.InactiveTab && c.numbers[i] == Some(number);
      OmittedGoes(rules, lines, records, start, depth, number, i);
    }
    if NumberGoes(rules, lines, records, start, depth, number) {
      var i: nat :| TabAt(rules, lines, start, depth, i, number) && Goes(rules, lines, records, start, depth, i);
      GoesOmitted(rules, lines, records, start, depth, number, i);
    }
  }

  lemma {:induction false} WithoutIndexesAt(records: seq<Record>, omitted: set<nat>) returns (at: seq<nat>)
    ensures RecordsLeft(records, at, TabCompaction.WithoutIndexes(records, omitted)) && Ascends(at)
    ensures forall j: nat :: j in at <==> j < |records| && records[j].index !in omitted
  {
    if records == [] {
      at := [];
    } else {
      var later := WithoutIndexesAt(records[1..], omitted);
      at := TabCompaction.ShiftedByOne(later);
      ShiftedExact(records, omitted, later);
      if records[0].index !in omitted {
        FirstStays(records, omitted, at);
        at := [0] + at;
      }
    }
  }

  lemma ShiftedExact(records: seq<Record>, omitted: set<nat>, later: seq<nat>)
    requires records != [] && Ascends(later)
    requires RecordsLeft(records[1..], later, TabCompaction.WithoutIndexes(records[1..], omitted))
    requires forall j: nat :: j in later <==> j < |records[1..]| && records[1..][j].index !in omitted
    ensures
      var at := TabCompaction.ShiftedByOne(later);
      && RecordsLeft(records, at, TabCompaction.WithoutIndexes(records[1..], omitted)) && Ascends(at) && 0 !in at
      && forall j: nat :: 0 < j ==> (j in at <==> j < |records| && records[j].index !in omitted)
  {
    var at := TabCompaction.ShiftedByOne(later);
    forall j: nat | 0 < j ensures j in at <==> j < |records| && records[j].index !in omitted {
      if j in at {
        var k :| 0 <= k < |at| && at[k] == j;
        assert later[k] == j - 1 && later[k] in later;
      }
      if j < |records| && records[j].index !in omitted {
        assert j - 1 in later;
        var k :| 0 <= k < |later| && later[k] == j - 1;
        assert at[k] == j;
      }
    }
  }

  lemma ZeroFirst(at: seq<nat>)
    requires Ascends(at) && 0 !in at
    ensures Ascends([0] + at)
  {
    forall k | 0 <= k < |at| ensures at[k] > 0 {
      assert at[k] in at;
    }
  }

  lemma FirstLeft(records: seq<Record>, at: seq<nat>, left: seq<Record>)
    requires records != [] && RecordsLeft(records, at, left)
    ensures RecordsLeft(records, [0] + at, [records[0]] + left)
  {
  }

  lemma FirstStays(records: seq<Record>, omitted: set<nat>, at: seq<nat>)
    requires records != [] && records[0].index !in omitted && Ascends(at) && 0 !in at
    requires RecordsLeft(records, at, TabCompaction.WithoutIndexes(records[1..], omitted))
    requires forall j: nat :: 0 < j ==> (j in at <==> j < |records| && records[j].index !in omitted)
    ensures RecordsLeft(records, [0] + at, TabCompaction.WithoutIndexes(records, omitted)) && Ascends([0] + at)
    ensures forall j: nat :: j in [0] + at <==> j < |records| && records[j].index !in omitted
  {
    ZeroFirst(at);
    FirstLeft(records, at, TabCompaction.WithoutIndexes(records[1..], omitted));
  }

  lemma MarkerIs(depth: nat, omitted: nat)
    ensures IsMarker(Marker(depth, omitted), depth, omitted)
  {
    var line := Marker(depth, omitted);
    var text := "... " + Digits(omitted) + " inactive browser tabs omitted";
    assert line == Indent(depth) + text;
    forall i | 0 <= i < depth ensures line[i] == '\t' {
      assert line[i] == Indent(depth)[i];
    }
  }

  lemma LinesOfCall(c: TabCompaction.Call, lines: seq<string>, records: seq<Record>)
    requires c.Valid() && TabCompaction.Compacts(c, lines, records) && !TabCompaction.Idle(c.marks)
    ensures LinesLeft(c.lines, TabCompaction.Where(c.marks, TabCompaction.Stays, 0), c.FirstTab(), c.depth, lines)
  {
    TabCompaction.LinesConserved(c, lines, records);
    StayCount(c.marks, 0);
    MarkerIs(c.depth, c.Dropped());
    AroundMarker(c.lines, TabCompaction.Where(c.marks, TabCompaction.Stays, 0), c.FirstTab(), lines);
  }

  lemma AroundMarker(lines: seq<string>, kept: seq<nat>, first: nat, after: seq<string>)
    requires forall k :: 0 <= k < |kept| ==> kept[k] < |lines|
    requires first < |after| && after[..first] + after[first + 1..] == TabCompaction.LinesAt(lines, kept)
    ensures |after| == |kept| + 1
    ensures forall k: nat :: k < |kept| ==> StandsAfter(lines, kept[k], first, after, k)
  {
    var rest := after[..first] + after[first + 1..];
    forall k: nat | k < |kept| ensures StandsAfter(lines, kept[k], first, after, k) {
      assert rest[k] == lines[kept[k]];
      assert rest[k] == if k < first then after[k] else after[k + 1];
    }
  }

  lemma RecordsOfCall(
    rules: TabCompaction.TextRules, lines: seq<string>, records: seq<Record>, start: nat, depth: nat)
    returns (recs: seq<nat>)
    ensures RecordsAre(rules, lines, records, start, depth, recs)
    ensures
      var c := TabCompaction.CallOf(rules, lines, records, start, depth);
      RecordsLeft(records, recs, TabCompaction.WithoutIndexes(records, TabCompaction.Omitted(c.marks, c.numbers, 0)))
  {
    var c := TabCompaction.CallOf(rules, lines, records, start, depth);
    recs := WithoutIndexesAt(records, TabCompaction.Omitted(c.marks, c.numbers, 0));
    forall j: nat | j < |records|
      ensures records[j].index in TabCompaction.Omitted(c.marks, c.numbers, 0)
         <==> NumberGoes(rules, lines, records, start, depth, records[j].index)
    {
      NumbersGo(rules, lines, records, start, depth, records[j].index);
    }
  }

  lemma IdleIs(c: TabCompaction.Call)
    requires c.Valid()
    ensures TabCompaction.Idle(c.marks) <==>
      || |TabCompaction.Where(c.marks, TabCompaction.IsTab, 0)| < 10
      || |TabCompaction.Where(c.marks, TabCompaction.Stays, 0)| == |c.lines|
      || TabCompaction.Where(c.marks, TabCompaction.IsActive, 0) == []
  {
    StayCount(c.marks, 0);
  }

  /** Every call does exactly this. */
  lemma CallMeans(
    rules: TabCompaction.TextRules, lines: seq<string>, records: seq<Record>, start: nat, depth: nat,
    lines': seq<string>, records': seq<Record>)
    requires TabCompaction.Compacts(TabCompaction.CallOf(rules, lines, records, start, depth), lines', records')
    ensures CompactsTo(rules, lines, records, start, depth, lines', records')
  {
    var c := TabCompaction.CallOf(rules, lines, records, start, depth);
    TabsFound(rules, lines, records, start, depth);
    var recs := RecordsOfCall(rules, lines, records, start, depth);
    IdleIs(c);
    if !TabCompaction.Idle(c.marks) {
      LinesOfCall(c, lines', records');
    }
    CallFits(rules, lines, records, start, depth, lines', records',
             TabCompaction.Where(c.marks, TabCompaction.IsTab, 0), TabCompaction.Where(c.marks, TabCompaction.Stays, 0),
             recs);
  }

  lemma CallFits(
    rules: TabCompaction.TextRules, lines: seq<string>, records: seq<Record>, start: nat, depth: nat,
    lines': seq<string>, records': seq<Record>, tabs: seq<nat>, kept: seq<nat>, recs: seq<nat>)
    requires TabsAre(rules, lines, start, depth, tabs) && KeptAre(rules, lines, records, start, depth, kept)
    requires RecordsAre(rules, lines, records, start, depth, recs)
    requires
      if |tabs| < 10 || |kept| == |lines| || NoneActive(rules, lines, records, start, depth) then
        lines' == lines && records' == records
      else
        LinesLeft(lines, kept, tabs[0], depth, lines') && RecordsLeft(records, recs, records')
    ensures CompactsTo(rules, lines, records, start, depth, lines', records')
  {
  }
}
