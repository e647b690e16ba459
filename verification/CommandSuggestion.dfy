/** Typo recovery (src/cli/command-suggestion.ts): ranking near misses and guarding
  destructive commands.  `le` stands for `localeCompare(..) <= 0`. */
module CommandSuggestion {
  import opened Wrappers
  import opened Collections
  import opened StringOps
  import opened CommandSpecs
  import opened EditDistance

  const SUGGESTION_THRESHOLD: nat := 3
  const MAX_SUGGESTIONS: nat := 3
  const DESTRUCTIVE_INTENT_THRESHOLD: nat := 1

  type LabelOrder = (string, string) -> bool

  ghost predicate TotalPreorder(le: LabelOrder) {
    && (forall a, b :: le(a, b) || le(b, a))
    && (forall a, b, c :: le(a, b) && le(b, c) ==> le(a, c))
  }

  ghost predicate Antisymmetric(le: LabelOrder) {
    forall a, b :: le(a, b) && le(b, a) ==> a == b
  }

  datatype Scored = Scored(text: string, distance: nat)

  /** The comparator of `rankByDistance` is at most zero. */
  predicate NotAfter(le: LabelOrder, a: Scored, b: Scored) {
    a.distance < b.distance || (a.distance == b.distance && le(a.text, b.text))
  }

  predicate Near(entry: Scored) {
    0 < entry.distance <= SUGGESTION_THRESHOLD
  }

  // ----- The pipeline: filter, stable sort, slice, map

  function FilterNear(scored: seq<Scored>): seq<Scored> {
    if scored == [] then []
    else if Near(scored[0]) then [scored[0]] + FilterNear(scored[1..])
    else FilterNear(scored[1..])
  }

  function InsertSorted(le: LabelOrder, sorted: seq<Scored>, entry: Scored): seq<Scored> {
    if sorted == [] || NotAfter(le, Last(sorted), entry) then sorted + [entry]
    else InsertSorted(le, Init(sorted), entry) + [Last(sorted)]
  }

  function StableSort(le: LabelOrder, scored: seq<Scored>): seq<Scored> {
    if scored == [] then [] else InsertSorted(le, StableSort(le, Init(scored)), Last(scored))
  }

  function Labels(scored: seq<Scored>): seq<string> {
    seq(|scored|, i requires 0 <= i < |scored| => scored[i].text)
  }

  function RankByDistance(le: LabelOrder, scored: seq<Scored>): seq<string> {
    var ranked := StableSort(le, FilterNear(scored));
    Labels(if |ranked| <= MAX_SUGGESTIONS then ranked else ranked[..MAX_SUGGESTIONS])
  }

  // ----- What the ranking means

  ghost predicate Sorted(le: LabelOrder, s: seq<Scored>) {
    forall i, j :: 0 <= i < j < |s| ==> NotAfter(le, s[i], s[j])
  }

  lemma MultisetSnoc(s: seq<Scored>)
    requires s != []
    ensures multiset(s) == multiset(Init(s)) + multiset{Last(s)}
  {
    assert s == Init(s) + [Last(s)];
  }

  lemma SortedSnoc(le: LabelOrder, front: seq<Scored>, last: Scored)
    requires Sorted(le, front) && forall x :: x in front ==> NotAfter(le, x, last)
    ensures Sorted(le, front + [last])
  {
  }

  lemma {:induction false} InsertSortedMultiset(le: LabelOrder, s: seq<Scored>, entry: Scored)
    ensures multiset(InsertSorted(le, s, entry)) == multiset(s) + multiset{entry}
  {
    if s != [] && !NotAfter(le, Last(s), entry) {
      InsertSortedMultiset(le, Init(s), entry);
      MultisetSnoc(s);
    }
  }

  lemma {:induction false} InsertSortedCorrect(le: LabelOrder, s: seq<Scored>, entry: Scored)
    requires TotalPreorder(le) && Sorted(le, s)
    ensures Sorted(le, InsertSorted(le, s, entry))
  {
    if s == [] {
    } else if NotAfter(le, Last(s), entry) {
      forall x | x in s ensures NotAfter(le, x, entry) {
        assert NotAfter(le, x, Last(s)) || x == Last(s);
      }
      SortedSnoc(le, s, entry);
    } else {
      var front := InsertSorted(le, Init(s), entry);
      InsertSortedCorrect(le, Init(s), entry);
      InsertSortedMultiset(le, Init(s), entry);
      forall x | x in front ensures NotAfter(le, x, Last(s)) {
        assert x in multiset(front);
        assert x in Init(s) || x == entry;
      }
      SortedSnoc(le, front, Last(s));
    }
  }

  lemma {:induction false} StableSortCorrect(le: LabelOrder, s: seq<Scored>)
    requires TotalPreorder(le)
    ensures Sorted(le, StableSort(le, s))
    ensures multiset(StableSort(le, s)) == multiset(s)
  {
    if s != [] {
      StableSortCorrect(le, Init(s));
      InsertSortedCorrect(le, StableSort(le, Init(s)), Last(s));
      InsertSortedMultiset(le, StableSort(le, Init(s)), Last(s));
      MultisetSnoc(s);
    }
  }

  lemma {:induction false} FilterNearCorrect(s: seq<Scored>)
    ensures forall x :: multiset(FilterNear(s))[x] == if Near(x) then multiset(s)[x] else 0
  {
    if s != [] {
      FilterNearCorrect(s[1..]);
      assert s == [s[0]] + s[1..];
    }
  }

  /** The labels of `pool` that are near misses of `input`. */
  ghost function Eligible(pool: set<string>, input: string): set<string> {
    set text | text in pool && 0 < Distance(input, text) <= SUGGESTION_THRESHOLD
  }

  ghost predicate Outranks(le: LabelOrder, input: string, a: string, b: string) {
    NotAfter(le, Scored(a, Distance(input, a)), Scored(b, Distance(input, b)))
  }

  /** `result` lists, best first and without repetition, the at most three best near misses. */
  ghost predicate TopThree(le: LabelOrder, pool: set<string>, input: string, result: seq<string>) {
    var eligible := Eligible(pool, input);
    && |result| == Min(MAX_SUGGESTIONS, |eligible|)
    && (forall r :: r in result ==> r in eligible)
    && (forall i, j :: 0 <= i < j < |result| ==>
          result[i] != result[j] && Outranks(le, input, result[i], result[j]))
    && (forall r, other :: r in result && other in eligible && other !in result ==>
          Outranks(le, input, r, other))
  }

  ghost predicate DistinctLabels(s: seq<Scored>) {
    forall i, j :: 0 <= i < j < |s| ==> s[i].text != s[j].text
  }

  ghost predicate Scores(s: seq<Scored>, input: string) {
    forall e :: e in s ==> e.distance == Distance(input, e.text)
  }

  ghost function LabelSet(s: seq<Scored>): set<string> {
    set e | e in s :: e.text
  }

  lemma {:induction false} SizeOfLabelSet(s: seq<Scored>)
    requires DistinctLabels(s)
    ensures |LabelSet(s)| == |s|
  {
    if s != [] {
      SizeOfLabelSet(Init(s));
      assert s == Init(s) + [Last(s)];
      assert LabelSet(s) == LabelSet(Init(s)) + {Last(s).text};
      assert Last(s).text !in LabelSet(Init(s));
    }
  }

  lemma MultisetToSeq(s: seq<Scored>, x: Scored)
    ensures x in s <==> multiset(s)[x] > 0
  {
  }

  /** With at most one occurrence of each entry, and entries determined by their labels. */
  lemma DistinctThroughMultiset(s: seq<Scored>, t: seq<Scored>, input: string)
    requires DistinctLabels(s) && Scores(s, input)
    requires forall x :: multiset(t)[x] <= multiset(s)[x]
    ensures DistinctLabels(t) && Scores(t, input)
  {
    forall e | e in t ensures e.distance == Distance(input, e.text) {
      assert multiset(t)[e] > 0;
      assert e in multiset(s);
    }
    forall i, j | 0 <= i < j < |t| ensures t[i].text != t[j].text {
      if t[i].text == t[j].text {
        assert t[i] in t && t[j] in t;
        AtMostOnce(s, t[i]);
        TwiceInMultiset(t, i, j);
      }
    }
  }

  lemma TwiceInMultiset(t: seq<Scored>, i: nat, j: nat)
    requires i < j < |t| && t[i] == t[j]
    ensures multiset(t)[t[i]] >= 2
  {
    assert t == t[..j] + [t[j]] + t[j + 1..];
    assert t[i] in t[..j];
    assert multiset(t) == multiset(t[..j]) + multiset([t[j]]) + multiset(t[j + 1..]);
  }

  lemma {:induction false} AtMostOnce(s: seq<Scored>, x: Scored)
    requires DistinctLabels(s)
    ensures multiset(s)[x] <= 1
  {
    if s != [] {
      AtMostOnce(Init(s), x);
      assert s == Init(s) + [Last(s)];
      if Last(s) == x {
        assert x !in Init(s);
      }
    }
  }

  /** Filtering and sorting keep exactly the near misses. */
  lemma RankedAreEligible(le: LabelOrder, scored: seq<Scored>, input: string)
    requires TotalPreorder(le) && DistinctLabels(scored) && Scores(scored, input)
    ensures
      var ranked := StableSort(le, FilterNear(scored));
      && Sorted(le, ranked) && DistinctLabels(ranked) && Scores(ranked, input)
      && LabelSet(ranked) == Eligible(LabelSet(scored), input)
  {
    var ranked := StableSort(le, FilterNear(scored));
    FilterNearCorrect(scored);
    StableSortCorrect(le, FilterNear(scored));
    DistinctThroughMultiset(scored, ranked, input);
    forall text ensures text in Eligible(LabelSet(scored), input) <==> text in LabelSet(ranked) {
      var entry := Scored(text, Distance(input, text));
      MultisetToSeq(scored, entry);
      MultisetToSeq(ranked, entry);
      assert text in LabelSet(scored) <==> entry in scored;
      assert text in LabelSet(ranked) <==> entry in ranked;
    }
  }

  /** The first three of a sorted list outrank the rest of it. */
  lemma FirstThree(le: LabelOrder, ranked: seq<Scored>, pool: set<string>, input: string)
    requires Sorted(le, ranked) && DistinctLabels(ranked) && Scores(ranked, input)
    requires LabelSet(ranked) == Eligible(pool, input)
    ensures TopThree(le, pool, input, Labels(ranked[..Min(MAX_SUGGESTIONS, |ranked|)]))
  {
    SizeOfLabelSet(ranked);
    var result := Labels(ranked[..Min(MAX_SUGGESTIONS, |ranked|)]);
    forall i | 0 <= i < |ranked|
      ensures ranked[i] == Scored(ranked[i].text, Distance(input, ranked[i].text))
      ensures ranked[i].text in LabelSet(ranked)
    {
      assert ranked[i] in ranked;
    }
    assert forall k :: 0 <= k < |result| ==> result[k] == ranked[k].text;
    forall r, other | r in result && other in LabelSet(ranked) && other !in result
      ensures Outranks(le, input, r, other)
    {
      var i :| 0 <= i < |result| && result[i] == r;
      var e :| e in ranked && e.text == other;
      var j :| 0 <= j < |ranked| && ranked[j] == e;
    }
  }

  /** The pipeline returns the true top three of what was scored. */
  lemma RankIsTopThree(le: LabelOrder, scored: seq<Scored>, input: string)
    requires TotalPreorder(le) && DistinctLabels(scored) && Scores(scored, input)
    ensures TopThree(le, LabelSet(scored), input, RankByDistance(le, scored))
  {
    RankedAreEligible(le, scored, input);
    var ranked := StableSort(le, FilterNear(scored));
    FirstThree(le, ranked, LabelSet(scored), input);
    assert |ranked| <= MAX_SUGGESTIONS ==> ranked[..|ranked|] == ranked;
  }

  /** The top three are determined by the pool: the registry's order cannot matter. */
  lemma {:induction false} TopThreeUnique(
    le: LabelOrder, pool: set<string>, input: string, r: seq<string>, t: seq<string>)
    requires TotalPreorder(le) && Antisymmetric(le)
    requires TopThree(le, pool, input, r) && TopThree(le, pool, input, t)
    ensures r == t
  {
    forall k: nat | k <= |r| ensures r[..k] == t[..k] {
      SamePrefix(le, pool, input, r, t, k);
    }
    assert r == r[..|r|] && t == t[..|t|];
  }

  lemma {:induction false} SamePrefix(
    le: LabelOrder, pool: set<string>, input: string, r: seq<string>, t: seq<string>, k: nat)
    requires TotalPreorder(le) && Antisymmetric(le)
    requires TopThree(le, pool, input, r) && TopThree(le, pool, input, t)
    requires k <= |r|
    ensures r[..k] == t[..k]
  {
    if k > 0 {
      SamePrefix(le, pool, input, r, t, k - 1);
      FirstDifference(le, pool, input, r, t, k - 1);
      FirstDifference(le, pool, input, t, r, k - 1);
      assert r[..k] == r[..k - 1] + [r[k - 1]] && t[..k] == t[..k - 1] + [t[k - 1]];
    }
  }

  lemma FirstDifference(
    le: LabelOrder, pool: set<string>, input: string, r: seq<string>, t: seq<string>, k: nat)
    requires TopThree(le, pool, input, r) && TopThree(le, pool, input, t)
    requires k < |r| && r[..k] == t[..k]
    ensures r[k] == t[k] || Outranks(le, input, t[k], r[k])
  {
    assert r[k] in Eligible(pool, input);
    if r[k] in t {
      assert forall i :: 0 <= i < k ==> t[i] == t[..k][i] == r[i];
      var j :| 0 <= j < |t| && t[j] == r[k];
    } else {
      assert t[k] in t;
    }
  }

  // ----- Destructive intent

  function FinalToken(path: Path): string {
    if path == [] then "" else Last(path)
  }

  method DestructiveVerbs(specs: seq<CommandSpec>) returns (verbs: set<string>)
    ensures forall v :: v in verbs <==>
      exists s, p :: s in specs && s.destructive && p in SpecPaths(s) && v == FinalToken(p)
  {
    verbs := {};
    for i := 0 to |specs|
      invariant forall v :: v in verbs <==>
        exists s, p :: s in specs[..i] && s.destructive && p in SpecPaths(s) && v == FinalToken(p)
    {
      var spec := specs[i];
      assert specs[..i + 1] == specs[..i] + [spec];
      if spec.destructive {
        var paths := SpecPaths(spec);
        ghost var before := verbs;
        for j := 0 to |paths|
          invariant forall v :: v in verbs <==>
            v in before || exists p :: p in paths[..j] && v == FinalToken(p)
        {
          assert paths[..j + 1] == paths[..j] + [paths[j]];
          verbs := verbs + {FinalToken(paths[j])};
        }
        assert paths[..|paths|] == paths;
      }
    }
    assert specs[..|specs|] == specs;
  }

  method IntendsDestruction(inputToken: string, verbs: set<string>) returns (intends: bool)
    ensures intends <==>
      exists v :: v in verbs && Distance(inputToken, v) <= DESTRUCTIVE_INTENT_THRESHOLD
  {
    var rest := verbs;
    while rest != {}
      invariant rest <= verbs
      invariant forall v :: v in verbs - rest ==> Distance(inputToken, v) > DESTRUCTIVE_INTENT_THRESHOLD
      decreases |rest|
    {
      var verb :| verb in rest;
      var distance := Levenshtein(inputToken, verb);
      if distance <= DESTRUCTIVE_INTENT_THRESHOLD {
        return true;
      }
      rest := rest - {verb};
    }
    return false;
  }

  /** The input's last token is within one edit of the last token of a destructive path or alias. */
  ghost predicate ReachesForDestruction(specs: seq<CommandSpec>, commandPath: Path) {
    exists s, p :: s in specs && s.destructive && p in SpecPaths(s) &&
      Distance(FinalToken(commandPath), FinalToken(p)) <= DESTRUCTIVE_INTENT_THRESHOLD
  }

  lemma IntentIsReach(specs: seq<CommandSpec>, commandPath: Path, verbs: set<string>)
    requires forall v :: v in verbs <==>
      exists s, p :: s in specs && s.destructive && p in SpecPaths(s) && v == FinalToken(p)
    ensures ReachesForDestruction(specs, commandPath) <==>
      exists v :: v in verbs && Distance(FinalToken(commandPath), v) <= DESTRUCTIVE_INTENT_THRESHOLD
  {
    if ReachesForDestruction(specs, commandPath) {
      var s, p :| s in specs && s.destructive && p in SpecPaths(s) &&
        Distance(FinalToken(commandPath), FinalToken(p)) <= DESTRUCTIVE_INTENT_THRESHOLD;
      assert FinalToken(p) in verbs;
    }
  }

  // ----- Command suggestions

  /** A one-token input is compared with the first token of every path. */
  function Candidate(commandPath: Path, path: Path): Path {
    if |commandPath| == 1 && |path| >= 1 then path[..1] else path
  }

  ghost predicate ContributesFrom(paths: seq<Path>, commandPath: Path, text: string) {
    exists p :: p in paths && |Candidate(commandPath, p)| == |commandPath| &&
      text == Join(Candidate(commandPath, p))
  }

  ghost predicate Contributes(spec: CommandSpec, commandPath: Path, text: string) {
    ContributesFrom(SpecPaths(spec), commandPath, text)
  }

  /** The labels open to the ranking. */
  ghost predicate InPool(specs: seq<CommandSpec>, commandPath: Path, allowDestructive: bool, text: string) {
    exists s :: s in specs && (s.destructive ==> allowDestructive) && Contributes(s, commandPath, text)
  }

  method ScoreSpec(spec: CommandSpec, commandPath: Path, input: string, seen: set<string>, scored: seq<Scored>)
    returns (seen': set<string>, scored': seq<Scored>)
    requires DistinctLabels(scored) && Scores(scored, input) && LabelSet(scored) == seen
    ensures DistinctLabels(scored') && Scores(scored', input) && LabelSet(scored') == seen'
    ensures forall l :: l in seen' <==> l in seen || Contributes(spec, commandPath, l)
  {
    seen', scored' := seen, scored;
    var paths := SpecPaths(spec);
    for i := 0 to |paths|
      invariant DistinctLabels(scored') && Scores(scored', input) && LabelSet(scored') == seen'
      invariant forall l :: l in seen' <==> (l in seen || ContributesFrom(paths[..i], commandPath, l))
    {
      assert paths[..i + 1] == paths[..i] + [paths[i]];
      var candidate := Candidate(commandPath, paths[i]);
      if |candidate| == |commandPath| {
        var joined := Join(candidate);
        if joined !in seen' {
          var distance := Levenshtein(input, joined);
          assert forall e :: e in scored' ==> e.text in LabelSet(scored');
          assert LabelSet(scored' + [Scored(joined, distance)]) == seen' + {joined};
          seen' := seen' + {joined};
          scored' := scored' + [Scored(joined, distance)];
        }
      }
    }
    assert paths[..|paths|] == paths;
  }

  lemma PoolStep(specs: seq<CommandSpec>, i: nat, commandPath: Path, allowDestructive: bool)
    requires i < |specs|
    ensures forall l :: InPool(specs[..i + 1], commandPath, allowDestructive, l) <==>
      (InPool(specs[..i], commandPath, allowDestructive, l)
       || ((specs[i].destructive ==> allowDestructive) && Contributes(specs[i], commandPath, l)))
  {
    assert specs[..i + 1] == specs[..i] + [specs[i]];
  }

  /** The suggestions are the true top three of the pool, and the pool holds destructive specs
    only when the user reached for one. */
  method SuggestCommands(specs: seq<CommandSpec>, commandPath: Path, le: LabelOrder)
    returns (suggestions: seq<string>)
    requires TotalPreorder(le)
    ensures exists pool: set<string> ::
      && (forall l :: l in pool <==> InPool(specs, commandPath, ReachesForDestruction(specs, commandPath), l))
      && TopThree(le, pool, Join(commandPath), suggestions)
    ensures SuggestionsAre(specs, commandPath, le, suggestions)
    ensures forall text :: text in suggestions && OnlyDestructive(specs, commandPath, text) ==>
      ReachedFor(specs, commandPath)
  {
    var input := Join(commandPath);
    var verbs := DestructiveVerbs(specs);
    var allowDestructive := IntendsDestruction(FinalToken(commandPath), verbs);
    IntentIsReach(specs, commandPath, verbs);
    var seen: set<string>, scored: seq<Scored> := {}, [];
    for i := 0 to |specs|
      invariant DistinctLabels(scored) && Scores(scored, input) && LabelSet(scored) == seen
      invariant forall l :: l in seen <==> InPool(specs[..i], commandPath, allowDestructive, l)
    {
      PoolStep(specs, i, commandPath, allowDestructive);
      if !(specs[i].destructive && !allowDestructive) {
        seen, scored := ScoreSpec(specs[i], commandPath, input, seen, scored);
      }
    }
    assert specs[..|specs|] == specs;
    RankIsTopThree(le, scored, input);
    suggestions := RankByDistance(le, scored);
    TopThreeMeans(specs, commandPath, le, seen, suggestions);
  }

  // ----- What is suggested, and to whom

  /** A label of the spec: the first token of one of its paths for an input of one token, else the
    whole path if it has as many tokens as the input. */
  ghost predicate IsLabel(spec: CommandSpec, input: Path, text: string) {
    exists p :: Names(p, spec) && LabelOf(p, input, text)
  }

  predicate LabelOf(p: Path, input: Path, text: string) {
    if |input| == 1 then |p| > 0 && text == p[0] else |p| == |input| && text == JoinWith(p, ' ')
  }

  /** The last token of the input is at most one edit away from that of `p`; an empty path ends in the
    empty token. */
  predicate EndsAlike(input: Path, p: Path) {
    if |input| == 0 && |p| == 0 then true
    else if |input| == 0 then Distance("", p[|p| - 1]) <= 1
    else if |p| == 0 then Distance(input[|input| - 1], "") <= 1
    else Distance(input[|input| - 1], p[|p| - 1]) <= 1
  }

  /** The user reached for a destructive command. */
  ghost predicate ReachedFor(specs: seq<CommandSpec>, input: Path) {
    exists s, p :: s in specs && s.destructive && Names(p, s) && EndsAlike(input, p)
  }

  ghost predicate OnlyDestructive(specs: seq<CommandSpec>, input: Path, text: string) {
    forall s :: s in specs && IsLabel(s, input, text) ==> s.destructive
  }

  /** Some spec has the label and may be suggested. */
  ghost predicate Open(specs: seq<CommandSpec>, input: Path, text: string) {
    exists s :: s in specs && IsLabel(s, input, text) && (s.destructive ==> ReachedFor(specs, input))
  }

  ghost predicate NearLabel(specs: seq<CommandSpec>, input: Path, text: string) {
    Open(specs, input, text) && 1 <= Distance(JoinWith(input, ' '), text) <= 3
  }

  /** Fewer edits, or as many and not behind it in label order. */
  predicate Nearer(le: LabelOrder, input: string, a: string, b: string) {
    Distance(input, a) < Distance(input, b) || (Distance(input, a) == Distance(input, b) && le(a, b))
  }

  /** At most three open labels at distance 1 to 3, nearest first, each once; a label that is left out
    would have been fourth. */
  ghost predicate SuggestionsAre(specs: seq<CommandSpec>, input: Path, le: LabelOrder, result: seq<string>) {
    var typed := JoinWith(input, ' ');
    && |result| <= 3
    && (forall text :: text in result ==> NearLabel(specs, input, text))
    && (forall i, j :: 0 <= i < j < |result| ==> result[i] != result[j] && Nearer(le, typed, result[i], result[j]))
    && (forall text :: NearLabel(specs, input, text) && text !in result ==>
          |result| == 3 && forall r :: r in result ==> Nearer(le, typed, r, text))
  }

  lemma FinalTokenIsLast(input: Path, p: Path)
    ensures Distance(FinalToken(input), FinalToken(p)) <= DESTRUCTIVE_INTENT_THRESHOLD <==> EndsAlike(input, p)
  {
    ZeroIffEqual("", "");
  }

  lemma ReachMeans(specs: seq<CommandSpec>, input: Path)
    ensures ReachesForDestruction(specs, input) <==> ReachedFor(specs, input)
  {
    forall s, p | s in specs ensures p in SpecPaths(s) <==> Names(p, s) {
      SpecPathsAreNames(s, p);
    }
    forall p
      ensures Distance(FinalToken(input), FinalToken(p)) <= DESTRUCTIVE_INTENT_THRESHOLD <==> EndsAlike(input, p)
    {
      FinalTokenIsLast(input, p);
    }
    if ReachesForDestruction(specs, input) {
      var s, p :| s in specs && s.destructive && p in SpecPaths(s) &&
        Distance(FinalToken(input), FinalToken(p)) <= DESTRUCTIVE_INTENT_THRESHOLD;
      assert Names(p, s) && EndsAlike(input, p);
    }
    if ReachedFor(specs, input) {
      var s, p :| s in specs && s.destructive && Names(p, s) && EndsAlike(input, p);
      assert p in SpecPaths(s);
    }
  }

  lemma LabelMeans(input: Path, p: Path, text: string)
    ensures LabelOf(p, input, text) <==>
      |Candidate(input, p)| == |input| && text == Join(Candidate(input, p))
  {
    if |input| == 1 && |p| >= 1 {
      assert p[..1] == [p[0]];
    }
  }

  lemma ContributionMeans(spec: CommandSpec, input: Path, text: string)
    ensures Contributes(spec, input, text) <==> IsLabel(spec, input, text)
  {
    forall p ensures p in SpecPaths(spec) <==> Names(p, spec) {
      SpecPathsAreNames(spec, p);
    }
    forall p
      ensures LabelOf(p, input, text) <==> |Candidate(input, p)| == |input| && text == Join(Candidate(input, p))
    {
      LabelMeans(input, p, text);
    }
  }

  lemma PoolMeans(specs: seq<CommandSpec>, input: Path, text: string)
    ensures InPool(specs, input, ReachesForDestruction(specs, input), text) <==> Open(specs, input, text)
  {
    ReachMeans(specs, input);
    forall s | s in specs ensures Contributes(s, input, text) <==> IsLabel(s, input, text) {
      ContributionMeans(s, input, text);
    }
  }

  lemma LeftOutMeansThree(le: LabelOrder, pool: set<string>, input: string, result: seq<string>, text: string)
    requires TopThree(le, pool, input, result) && text in Eligible(pool, input) && text !in result
    ensures |result| == 3
  {
    var eligible := Eligible(pool, input);
    DistinctCount(result);
    SubsetSize(ElementsOf(result), eligible - {text});
  }

  lemma TopThreeMeans(
    specs: seq<CommandSpec>, input: Path, le: LabelOrder, pool: set<string>, result: seq<string>)
    requires forall l :: l in pool <==> InPool(specs, input, ReachesForDestruction(specs, input), l)
    requires TopThree(le, pool, Join(input), result)
    ensures SuggestionsAre(specs, input, le, result)
  {
    var typed := JoinWith(input, ' ');
    forall text ensures NearLabel(specs, input, text) <==> text in Eligible(pool, typed) {
      PoolMeans(specs, input, text);
    }
    forall a, b ensures Nearer(le, typed, a, b) <==> Outranks(le, typed, a, b) {
    }
    forall text | NearLabel(specs, input, text) && text !in result
      ensures |result| == 3 && forall r :: r in result ==> Nearer(le, typed, r, text)
    {
      LeftOutMeansThree(le, pool, typed, result, text);
    }
  }

  /** A label that only destructive specs contribute is suggested only to a user who reached
    for a destructive verb. */
  lemma DestructiveGuard(
    specs: seq<CommandSpec>, commandPath: Path, le: LabelOrder,
    pool: set<string>, suggestions: seq<string>, text: string)
    requires forall l :: l in pool <==> InPool(specs, commandPath, ReachesForDestruction(specs, commandPath), l)
    requires TopThree(le, pool, Join(commandPath), suggestions)
    requires text in suggestions
    requires forall s :: s in specs && Contributes(s, commandPath, text) ==> s.destructive
    ensures ReachesForDestruction(specs, commandPath)
  {
    assert text in pool;
  }
}
