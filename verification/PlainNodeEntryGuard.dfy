/** The build guard over the chunk import graph (build-plugins/plain-node-entry-guard.ts). */
module PlainNodeEntryGuard {
  import opened Wrappers
  import opened Collections

  datatype Chunk = Chunk(
    fileName: string,
    name: string,
    isEntry: bool,
    code: string,
    imports: seq<string>,
    dynamicImports: seq<string>
  )

  type ChunkTable = map<string, Chunk>

  /** The table is keyed by each chunk's own file name. */
  ghost predicate KeyedByFileName(table: ChunkTable) {
    forall k :: k in table ==> table[k].fileName == k
  }

  // ----- Reachability

  function Edges(table: ChunkTable, from: string): seq<string> {
    if from in table then table[from].imports + table[from].dynamicImports else []
  }

  /** A walk along import edges: every name but the last is a known chunk. */
  ghost predicate IsWalk(table: ChunkTable, walk: seq<string>) {
    && walk != []
    && forall i :: 0 <= i < |walk| - 1 ==>
         && walk[i] in table
         && (walk[i + 1] in table[walk[i]].imports || walk[i + 1] in table[walk[i]].dynamicImports)
  }

  ghost predicate Reaches(table: ChunkTable, from: string, to: string) {
    exists walk :: IsWalk(table, walk) && walk[0] == from && walk[|walk| - 1] == to
  }

  lemma ReachesSelf(table: ChunkTable, from: string)
    ensures Reaches(table, from, from)
  {
    assert IsWalk(table, [from]);
  }

  lemma ReachesExtends(table: ChunkTable, from: string, via: string, to: string)
    requires Reaches(table, from, via) && to in Edges(table, via)
    ensures Reaches(table, from, to)
  {
    var walk :| IsWalk(table, walk) && walk[0] == from && walk[|walk| - 1] == via;
    assert IsWalk(table, walk + [to]);
  }

  /** Everything reachable lies in a set that holds the start and is closed under edges. */
  lemma {:induction false} ClosedContainsWalk(table: ChunkTable, closed: set<string>, walk: seq<string>)
    requires IsWalk(table, walk) && walk[0] in closed
    requires forall n, m :: n in closed && m in Edges(table, n) ==> m in closed
    ensures walk[|walk| - 1] in closed
  {
    if |walk| > 1 {
      var front := walk[..|walk| - 1];
      assert IsWalk(table, front);
      ClosedContainsWalk(table, closed, front);
      assert walk[|walk| - 2 + 1] in Edges(table, walk[|walk| - 2]);
    }
  }

  // ----- Termination bound: the finitely many names that can ever be pushed

  function Universe(table: ChunkTable, start: string): set<string> {
    {start} + set k, m | k in table && m in Edges(table, k) :: m
  }

  function FileNames(chunks: seq<Chunk>): seq<string> {
    seq(|chunks|, i requires 0 <= i < |chunks| => chunks[i].fileName)
  }

  /** `reachable` lists each chunk that `from` reaches exactly once, and nothing else. */
  ghost predicate ListsReachable(table: ChunkTable, from: string, reachable: seq<Chunk>) {
    && Distinct(FileNames(reachable))
    && forall c :: c in reachable <==>
         c.fileName in table && table[c.fileName] == c && Reaches(table, from, c.fileName)
  }

  /** What the worklist keeps: the start is seen or waiting; everything seen or waiting is
    reachable; the edges of everything seen are seen or waiting. */
  ghost predicate Frontier(table: ChunkTable, start: string, seen: set<string>, waiting: set<string>) {
    && start in seen + waiting
    && seen + waiting <= Universe(table, start)
    && (forall n :: n in seen + waiting ==> Reaches(table, start, n))
    && (forall n, m :: n in seen && m in Edges(table, n) ==> m in seen + waiting)
  }

  /** The chunks collected so far are the known ones among the names seen. */
  ghost predicate Collected(table: ChunkTable, seen: set<string>, reachable: seq<Chunk>) {
    && Distinct(FileNames(reachable))
    && forall c :: c in reachable <==> c.fileName in seen && c.fileName in table && table[c.fileName] == c
  }

  function Names(s: seq<string>): set<string> {
    set n | n in s
  }

  lemma NamesConcat(s: seq<string>, t: seq<string>)
    ensures Names(s + t) == Names(s) + Names(t)
    ensures t == [] ==> s + t == s
    ensures |t| == 1 ==> Names(t) == {t[0]}
  {
  }

  /** Visiting a name and queueing its edges keeps the frontier. */
  lemma VisitKeepsFrontier(table: ChunkTable, start: string, seen: set<string>, waiting: set<string>, fileName: string)
    requires Frontier(table, start, seen, waiting + {fileName})
    ensures Frontier(table, start, seen + {fileName}, waiting + Names(Edges(table, fileName)))
  {
    var edges := Names(Edges(table, fileName));
    forall m | m in edges ensures Reaches(table, start, m) && m in Universe(table, start) {
      ReachesExtends(table, start, fileName, m);
    }
    assert seen + {fileName} + (waiting + edges) == seen + (waiting + {fileName}) + edges;
    forall n, m | n in seen + {fileName} && m in Edges(table, n)
      ensures m in seen + (waiting + {fileName}) + edges
    {
      if n == fileName {
        assert m in edges;
      }
    }
  }

  lemma SkipKeepsFrontier(table: ChunkTable, start: string, seen: set<string>, waiting: set<string>, fileName: string)
    requires Frontier(table, start, seen, waiting + {fileName}) && fileName in seen
    ensures Frontier(table, start, seen, waiting)
  {
    assert seen + waiting == seen + (waiting + {fileName});
  }

  lemma CollectKnown(table: ChunkTable, seen: set<string>, fileName: string, reachable: seq<Chunk>)
    requires KeyedByFileName(table)
    requires Collected(table, seen, reachable) && fileName !in seen
    ensures fileName in table ==> Collected(table, seen + {fileName}, reachable + [table[fileName]])
    ensures fileName !in table ==> Collected(table, seen + {fileName}, reachable)
  {
    if fileName in table {
      var grown := reachable + [table[fileName]];
      forall i, j | 0 <= i < j < |grown| ensures FileNames(grown)[i] != FileNames(grown)[j] {
        if j == |reachable| {
          assert reachable[i] in reachable;
        } else {
          assert FileNames(reachable)[i] != FileNames(reachable)[j];
        }
      }
    }
  }

  lemma SmallerUnseen(universe: set<string>, seen: set<string>, n: string)
    requires n in universe && n !in seen
    ensures |universe - (seen + {n})| < |universe - seen|
  {
    assert universe - (seen + {n}) == (universe - seen) - {n};
  }

  /** The loop's state, with the stack as it is. */
  ghost predicate Invariant(
    table: ChunkTable, start: string, seen: set<string>, stack: seq<string>, reachable: seq<Chunk>)
  {
    Frontier(table, start, seen, Names(stack)) && Collected(table, seen, reachable)
  }

  lemma PopLast(names: seq<string>)
    requires names != []
    ensures names == names[..|names| - 1] + [names[|names| - 1]]
  {
  }

  lemma AddNothing(names: seq<string>, chunks: seq<Chunk>)
    ensures names + [] == names && chunks + [] == chunks
  {
  }

  lemma StartInvariant(table: ChunkTable, start: string)
    ensures Invariant(table, start, {}, [start], [])
  {
    ReachesSelf(table, start);
    NamesConcat([], [start]);
  }

  lemma PopSeen(
    table: ChunkTable, start: string, seen: set<string>, below: seq<string>, fileName: string, reachable: seq<Chunk>)
    requires Invariant(table, start, seen, below + [fileName], reachable) && fileName in seen
    ensures Invariant(table, start, seen, below, reachable)
  {
    NamesConcat(below, [fileName]);
    SkipKeepsFrontier(table, start, seen, Names(below), fileName);
  }

  /** Popping an unseen name marks it, collects its chunk if it is known, and pushes its edges. */
  lemma PopUnseen(
    table: ChunkTable, start: string, seen: set<string>, below: seq<string>, fileName: string, reachable: seq<Chunk>)
    requires KeyedByFileName(table)
    requires Invariant(table, start, seen, below + [fileName], reachable) && fileName !in seen
    ensures |Universe(table, start) - (seen + {fileName})| < |Universe(table, start) - seen|
    ensures Invariant(table, start, seen + {fileName}, below + Edges(table, fileName),
                      reachable + if fileName in table then [table[fileName]] else [])
  {
    NamesConcat(below, [fileName]);
    NamesConcat(below, Edges(table, fileName));
    SmallerUnseen(Universe(table, start), seen, fileName);
    VisitKeepsFrontier(table, start, seen, Names(below), fileName);
    CollectKnown(table, seen, fileName, reachable);
    assert reachable + [] == reachable;
  }

  lemma DrainedListsReachable(table: ChunkTable, start: string, seen: set<string>, reachable: seq<Chunk>)
    requires Invariant(table, start, seen, [], reachable)
    ensures ListsReachable(table, start, reachable)
  {
    assert Names([]) == {};
    forall n | Reaches(table, start, n) ensures n in seen {
      var walk :| IsWalk(table, walk) && walk[0] == start && walk[|walk| - 1] == n;
      ClosedContainsWalk(table, seen, walk);
    }
  }

  /** Sound and complete on any finite graph, cyclic or with dangling names. */
  method CollectReachableChunks(start: string, table: ChunkTable) returns (reachable: seq<Chunk>)
    requires KeyedByFileName(table)
    ensures ListsReachable(table, start, reachable)
  {
    var seen: set<string> := {};
    reachable := [];
    var stack := [start];
    StartInvariant(table, start);
    while |stack| > 0
      invariant Invariant(table, start, seen, stack, reachable)
      decreases |Universe(table, start) - seen|, |stack|
    {
      PopLast(stack);
      var fileName, below := stack[|stack| - 1], stack[..|stack| - 1];
      stack := below;
      if fileName in seen {
        PopSeen(table, start, seen, below, fileName, reachable);
        continue;
      }
      PopUnseen(table, start, seen, below, fileName, reachable);
      seen := seen + {fileName};
      if fileName !in table {
        AddNothing(below, reachable);
        continue;
      }
      var chunk := table[fileName];
      reachable := reachable + [chunk];
      stack := stack + (chunk.imports + chunk.dynamicImports);
    }
    DrainedListsReachable(table, start, seen, reachable);
  }

  // ----- The assertion

  type Offends = Chunk -> bool

  datatype Violation = Violation(entryName: string, fileName: string)

  /** Some chunk in the module graph of `entry` requires electron. */
  ghost predicate Leaks(requiresElectron: Offends, table: ChunkTable, entry: Chunk) {
    exists k :: k in table && Reaches(table, entry.fileName, k) && requiresElectron(table[k])
  }

  /** The error names a chunk that really is in the entry's graph and really requires electron. */
  ghost predicate Blames(requiresElectron: Offends, table: ChunkTable, entry: Chunk, fileName: string) {
    fileName in table && Reaches(table, entry.fileName, fileName) && requiresElectron(table[fileName])
  }

  method AssertNoElectronRequire(
    requiresElectron: Offends, entryName: string, entry: Chunk, table: ChunkTable)
    returns (r: Result<(), Violation>)
    requires KeyedByFileName(table)
    ensures r.Err? <==> Leaks(requiresElectron, table, entry)
    ensures r.Err? ==> r.error.entryName == entryName && Blames(requiresElectron, table, entry, r.error.fileName)
  {
    var reachable := CollectReachableChunks(entry.fileName, table);
    for i := 0 to |reachable|
      invariant forall j :: 0 <= j < i ==> !requiresElectron(reachable[j])
    {
      var chunk := reachable[i];
      if requiresElectron(chunk) {
        ListedLeak(requiresElectron, table, entry, reachable, i);
        return Err(Violation(entryName, chunk.fileName));
      }
    }
    NoneListedNoLeak(requiresElectron, table, entry, reachable);
    return Ok(());
  }

  lemma ListedLeak(requiresElectron: Offends, table: ChunkTable, entry: Chunk, reachable: seq<Chunk>, i: nat)
    requires ListsReachable(table, entry.fileName, reachable)
    requires i < |reachable| && requiresElectron(reachable[i])
    ensures Leaks(requiresElectron, table, entry)
    ensures Blames(requiresElectron, table, entry, reachable[i].fileName)
  {
    assert reachable[i] in reachable;
  }

  lemma NoneListedNoLeak(requiresElectron: Offends, table: ChunkTable, entry: Chunk, reachable: seq<Chunk>)
    requires KeyedByFileName(table)
    requires ListsReachable(table, entry.fileName, reachable)
    requires forall j :: 0 <= j < |reachable| ==> !requiresElectron(reachable[j])
    ensures !Leaks(requiresElectron, table, entry)
  {
    forall k | k in table && Reaches(table, entry.fileName, k) ensures !requiresElectron(table[k]) {
      assert table[k] in reachable;
    }
  }

  // ----- The plugin: one table for the whole bundle, one check per plain-Node entry

  const PLAIN_NODE_ENTRY_NAMES: seq<string> := [
    "daemon-entry",
    "parcel-watcher-process-entry",
    "computer-sidecar",
    "agent-hooks/managed-agent-hook-controls"
  ]

  /** The last of the chunks with this file name. */
  ghost predicate IsLastNamed(chunks: seq<Chunk>, fileName: string, c: Chunk) {
    exists i ::
      && 0 <= i < |chunks| && chunks[i] == c && c.fileName == fileName
      && forall j :: i < j < |chunks| ==> chunks[j].fileName != fileName
  }

  /** The last entry chunk with this name. */
  ghost predicate IsLastEntry(chunks: seq<Chunk>, name: string, c: Chunk) {
    exists i ::
      && 0 <= i < |chunks| && chunks[i] == c && c.isEntry && c.name == name && name != ""
      && forall j :: i < j < |chunks| && chunks[j].isEntry ==> chunks[j].name != name
  }

  /** `new Map(chunks.map(chunk => [chunk.fileName, chunk]))`: later chunks win. */
  function ByFileName(chunks: seq<Chunk>): (table: ChunkTable)
    ensures KeyedByFileName(table)
    ensures forall k :: k in table <==> exists c :: c in chunks && c.fileName == k
    ensures forall k :: k in table ==> table[k] in chunks
    ensures forall k :: k in table ==> IsLastNamed(chunks, k, table[k])
  {
    if chunks == [] then map[]
    else
      var last := chunks[|chunks| - 1];
      assert chunks == chunks[..|chunks| - 1] + [last];
      ByFileName(chunks[..|chunks| - 1])[last.fileName := last]
  }

  /** `entryByName`: the entry chunks that have a name, later ones winning. */
  function EntryByName(chunks: seq<Chunk>): (entries: map<string, Chunk>)
    ensures forall n :: n in entries <==> n != "" && exists c :: c in chunks && c.isEntry && c.name == n
    ensures forall n :: n in entries ==> entries[n] in chunks && entries[n].isEntry && entries[n].name == n
    ensures forall n :: n in entries ==> IsLastEntry(chunks, n, entries[n])
  {
    if chunks == [] then map[]
    else
      var last := chunks[|chunks| - 1];
      assert chunks == chunks[..|chunks| - 1] + [last];
      var entries := EntryByName(chunks[..|chunks| - 1]);
      if last.isEntry && last.name != "" then entries[last.name := last] else entries
  }

  ghost predicate EntryLeaks(
    requiresElectron: Offends, entries: map<string, Chunk>, table: ChunkTable, name: string)
  {
    name in entries && Leaks(requiresElectron, table, entries[name])
  }

  ghost predicate SomeEntryLeaks(
    requiresElectron: Offends, entryNames: seq<string>, entries: map<string, Chunk>, table: ChunkTable)
  {
    exists name :: name in entryNames && EntryLeaks(requiresElectron, entries, table, name)
  }

  /** The entry is one of those that run under plain Node. */
  predicate IsPlainNodeEntry(name: string) {
    || name == "daemon-entry" || name == "parcel-watcher-process-entry" || name == "computer-sidecar"
    || name == "agent-hooks/managed-agent-hook-controls"
  }

  ghost predicate PlainNodeEntryLeaks(requiresElectron: Offends, entries: map<string, Chunk>, table: ChunkTable) {
    exists name :: IsPlainNodeEntry(name) && EntryLeaks(requiresElectron, entries, table, name)
  }

  lemma ListedEntries(name: string)
    ensures name in PLAIN_NODE_ENTRY_NAMES <==> IsPlainNodeEntry(name)
  {
    var names := PLAIN_NODE_ENTRY_NAMES;
    assert names[0] in names && names[1] in names && names[2] in names && names[3] in names;
  }

  lemma ListedLeaks(requiresElectron: Offends, entries: map<string, Chunk>, table: ChunkTable)
    ensures SomeEntryLeaks(requiresElectron, PLAIN_NODE_ENTRY_NAMES, entries, table)
       <==> PlainNodeEntryLeaks(requiresElectron, entries, table)
  {
    forall name ensures name in PLAIN_NODE_ENTRY_NAMES <==> IsPlainNodeEntry(name) {
      ListedEntries(name);
    }
  }

  method CheckEntries(
    requiresElectron: Offends, entryNames: seq<string>, entries: map<string, Chunk>, table: ChunkTable)
    returns (r: Result<(), Violation>)
    requires KeyedByFileName(table)
    ensures r.Err? <==> SomeEntryLeaks(requiresElectron, entryNames, entries, table)
    ensures r.Err? ==> r.error.entryName in entryNames && r.error.entryName in entries
    ensures r.Err? ==> Blames(requiresElectron, table, entries[r.error.entryName], r.error.fileName)
  {
    for i := 0 to |entryNames|
      invariant forall j :: 0 <= j < i ==> !EntryLeaks(requiresElectron, entries, table, entryNames[j])
    {
      var entryName := entryNames[i];
      if entryName in entries {
        r := AssertNoElectronRequire(requiresElectron, entryName, entries[entryName], table);
        if r.Err? {
          assert EntryLeaks(requiresElectron, entries, table, entryName) && entryName in entryNames;
          return;
        }
      }
    }
    return Ok(());
  }

  /** What starting the built daemon entry under plain Node showed: whether it could be started at
    all, and what its error output said. */
  datatype SmokeRun = SmokeRun(failed: bool, missingModule: bool, printsUsage: bool)

  datatype BuildError = LeakFound(violation: Violation) | SmokeFailed

  const DAEMON_ENTRY: string := "daemon-entry"

  /** The build fails exactly when some plain-Node entry's module graph requires electron or, if
    none does, when the daemon entry was written out and does not load. */
  method WriteBundle(
    requiresElectron: Offends, watchMode: bool, chunks: seq<Chunk>, hasOutputDir: bool, smoke: SmokeRun)
    returns (r: Result<(), BuildError>)
    ensures
      var entries, table := EntryByName(chunks), ByFileName(chunks);
      var leaks := PlainNodeEntryLeaks(requiresElectron, entries, table);
      && (r.Err? && r.error.LeakFound? <==> !watchMode && leaks)
      && (r == Err(SmokeFailed) <==>
            && !watchMode && !leaks && "daemon-entry" in entries && hasOutputDir
            && (smoke.failed || smoke.missingModule || !smoke.printsUsage))
      && (r.Err? && r.error.LeakFound? ==>
            var v := r.error.violation;
            && IsPlainNodeEntry(v.entryName) && v.entryName in entries
            && Blames(requiresElectron, table, entries[v.entryName], v.fileName))
  {
    if watchMode {
      return Ok(());
    }
    var entryByName := EntryByName(chunks);
    var checked := CheckEntries(requiresElectron, PLAIN_NODE_ENTRY_NAMES, entryByName, ByFileName(chunks));
    ListedLeaks(requiresElectron, entryByName, ByFileName(chunks));
    if checked.Err? {
      ListedEntries(checked.error.entryName);
      return Err(LeakFound(checked.error));
    }
    if DAEMON_ENTRY in entryByName && hasOutputDir {
      if smoke.failed || smoke.missingModule || !smoke.printsUsage {
        return Err(SmokeFailed);
      }
    }
    return Ok(());
  }
}
