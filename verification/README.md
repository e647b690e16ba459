# Verified model of the Orca desktop app's self-contained logic

This project models seven groups of logic of the repository in Dafny and proves their hard
properties for all inputs, all runs and all interleavings:

1. **The Linux accessibility bridge** (`native/computer-use-linux/runtime.py`): the capped recursive
   renderer, the in-place tab compaction, looking saved records up again, and the explicit-stack
   search (`AccessibilityTree`, `RenderedLines`, `TabCompaction`, `TreeRendering`,
   `SnapshotContents`, `CompactionMeaning`, `AccessibilityRenderer`, `CompactedRendering`,
   `CompactionExamples`, `DescendantSearch`, `DescendantPaths`).
2. **The Windows launcher's command line** (`WindowsCommandLine`), against a reader for the
   Microsoft C/C++ argv rules.
3. **Typo recovery** (`EditDistance`, `CommandSuggestion`).
4. **The plain-Node import guard** (`PlainNodeEntryGuard`).
5. **Two stateful services**: the wake lock (`AgentAwake`) and the dock icon queue
   (`DockIconCommand`, `DockIconQueue`, `DockIconHistory`, `DockIconDrain`).
6. **The CLI front end** (`CommandSpecs`, `CommandArgs`, `CommandTokens`, `CommandNormalizing`,
   `CommandFrontEnd`), from the argument list to the handler key.
7. **Printers and scanners**: shell quoting and tokenizing (`ShellWords`), runner scripts
   (`RunnerScripts`) and due dates (`CalendarDate`).

`Wrappers`, `Collections`, `StringOps` and `IndexPaths` hold shared datatypes, facts about sequences and
sets, the join/split laws, and document order.

Where the program updates state step by step, so does the model: loops are methods with
invariants, objects are classes, and each such method is proved to compute a function about which
the properties are then proved. For the main operations further
rows say what comes out in terms of inputs and outputs alone. Calls into the operating system carry their outcome as a
parameter, so every result about a run holds whatever the system answers. Character classes,
case folding, text summaries, the electron test, the page-flag test and the label order are
parameters as well.

## Where the code differs from what is said about it

- A refresh exactly on the last expiry keeps the wake lock without arming a timer: eligibility
  uses `<=`, the timer skips `expiry <= now`. `AgentAwake.HoldWithoutTimerIff` says exactly when, for
  any two clock readings, and `AgentAwake.ExactExpiryIff` when the clock does not step back;
  `AgentAwake.ExactExpiryExample` gives a run, and `AgentAwake.HoldWithoutTimerLasts` says what ends
  such a hold: a resume, a platform assertion that fails or retries, or the system.
- The comment at `src/main/app-icon.ts:184` says the queue must not release while an older icon
  process can still win. It fails exactly for a started child that never exits
  (`DockIconCommand.OutlivesTurnIff`, `DockIconHistory.EarlierProcessesDead`);
  `DockIconCommand.ForceReleasesAlive` gives a run.
- With tab compaction on, a later record can reuse an index that is still taken:
  `CompactionExamples.IndexesCollide` gives a tree, `TabCompaction.AppendedStayUnique` says exactly how
  long indexes stay unique after a compaction, and `CompactedRendering.UniqueUpToFirstCall` that they
  are unique before it. A later compaction can then remove the record of a line that stays:
  `TabCompaction.StayingRecordLostIff` says exactly when, and
  `CompactionExamples.RecordOfStayingLineLost` gives a tree.
- `first_descendant` can miss a match within both budgets when the graph is not a tree
  (`DescendantSearch.SharedNodeHidesMatch`), but not if its budgets are wide enough for the graph
  (`DescendantSearch.FindsIffReachable`, `DescendantSearch.NothingMissedUnlessSpent`).
- `tokenizeLeadingShellWords` misreads the printer's output exactly when one of the leading words
  is empty or holds an apostrophe (`ShellWords.TokenizerReadsPrinterIff`).
- `getDueDateFlag` rejects real dates of the years 0 to 99, since `Date.UTC` moves them to the
  twentieth century (`CalendarDate.AcceptsExactlyRealDates`).

## Model

| member | source | states |
|---|---|---|
| `WindowsCommandLine.RoundTrip` | native/windows-cli-launcher/OrcaCliLauncher.cs:82-131 | for every non-empty list of strings, splitting the printed command line by the Microsoft C/C++ argv rules gives the list back: empty arguments, embedded quotes and trailing backslash runs included, and under both readings of a doubled quote |
| `WindowsCommandLine.BuildArguments` | native/windows-cli-launcher/OrcaCliLauncher.cs:82-91 | the loop prints the CLI path and the arguments so that the argv rules split them back into exactly `[cliPath] + args` |
| `WindowsCommandLine.QuoteArgument` | native/windows-cli-launcher/OrcaCliLauncher.cs:93-131 | the backslash-counting loop writes the recursive printer that the round trip is about |
| `WindowsCommandLine.UnquotedIff` | native/windows-cli-launcher/OrcaCliLauncher.cs:95-103 | an argument is written as it stands exactly if it is not empty and has no quote and no white space |
| `WindowsCommandLine.ReadQuotedBody` | native/windows-cli-launcher/OrcaCliLauncher.cs:105-130 | inside quotes, the text printed for any value after any run of pending backslashes is read as those backslashes and that value, and the reader stops exactly behind the closing quote |
| `WindowsCommandLine.ReadBare` | native/windows-cli-launcher/OrcaCliLauncher.cs:95-103 | a value left unquoted is read as it stands, backslashes included |
| `EditDistance.Levenshtein` | src/cli/command-suggestion.ts:50-72 | the two swapped rows compute `Distance`, the recurrence that the next rows tie to edit scripts |
| `EditDistance.ShortestScript` | src/cli/command-suggestion.ts:50-72 | some script of insertions, deletions and substitutions of length `Distance(a, b)` turns `a` into `b` |
| `EditDistance.NoShorterScript` | src/cli/command-suggestion.ts:50-72 | no script that turns `a` into `b` is shorter than `Distance(a, b)` |
| `EditDistance.EditIsClose` | src/cli/command-suggestion.ts:64-65 | one edit of `a` changes the distance to any `b` by at most one |
| `EditDistance.ZeroIffEqual` | src/cli/command-suggestion.ts:50-72 | the distance is zero exactly for equal strings |
| `EditDistance.Symmetric` | src/cli/command-suggestion.ts:50-72 | the distance is symmetric |
| `EditDistance.TriangleInequality` | src/cli/command-suggestion.ts:50-72 | the distance satisfies the triangle inequality |
| `CommandSuggestion.RankIsTopThree` | src/cli/command-suggestion.ts:75-81 | filter, stable sort, slice and map return the at most three least (distance, label) pairs at distance 1 to 3, best first, without repetition |
| `CommandSuggestion.TopThreeUnique` | src/cli/command-suggestion.ts:75-81 | under an antisymmetric label order the top three depend only on the pool of labels, not on the order of the registry |
| `CommandSuggestion.StableSortCorrect` | src/cli/command-suggestion.ts:78 | the sort returns the same entries, each as often as before, in comparator order |
| `CommandSuggestion.DestructiveVerbs` | src/cli/command-suggestion.ts:21-31 | the set holds exactly the final tokens of the paths and aliases of destructive specs |
| `CommandSuggestion.IntendsDestruction` | src/cli/command-suggestion.ts:36-43 | true exactly when some verb is within distance 1 of the token |
| `CommandSuggestion.ScoreSpec` | src/cli/command-suggestion.ts:95-109 | one spec adds exactly the labels it contributes at the depth of the input, each once and with its true distance |
| `CommandSuggestion.SuggestCommands` | src/cli/command-suggestion.ts:84-111 | on the result itself: at most three labels, nearest first and each once, at 1 to 3 edits from the input, and a label left out would have been fourth; a label is the first token, or the whole path of equal depth, of a spec that may be suggested; a label that only destructive specs have is suggested only if the last token of the input, by position, is at most one edit from the last token of a path or alias of a destructive spec |
| `CommandSuggestion.TopThreeMeans` | src/cli/command-suggestion.ts:75-111 | the top three of the pool are exactly that, for every order of labels |
| `CommandSuggestion.DestructiveGuard` | src/cli/command-suggestion.ts:86-94 | a suggested label that only destructive specs contribute implies that the user reached for a destructive verb |
| `PlainNodeEntryGuard.CollectReachableChunks` | build-plugins/plain-node-entry-guard.ts:26-49 | on any finite import graph, with cycles and dangling names, the worklist loop ends and lists exactly the known chunks reachable through known chunks by static or dynamic imports, each once |
| `PlainNodeEntryGuard.AssertNoElectronRequire` | build-plugins/plain-node-entry-guard.ts:51-66 | throws exactly when some chunk in the entry's graph requires electron, and the error names the entry and such a chunk |
| `PlainNodeEntryGuard.CheckEntries` | build-plugins/plain-node-entry-guard.ts:118-123 | fails exactly when one of the listed entries that is present leaks, and blames a present entry and a chunk of its graph |
| `PlainNodeEntryGuard.WriteBundle` | build-plugins/plain-node-entry-guard.ts:72-127 | outside watch mode a build fails exactly when the module graph of one of the four plain-Node entries requires electron or, if none does, when a written daemon entry fails its smoke load; a leak is blamed on such an entry and a chunk of its graph |
| `PlainNodeEntryGuard.ByFileName` | build-plugins/plain-node-entry-guard.ts:110 | the table maps exactly the file names of the chunks, each to the last chunk of that name |
| `PlainNodeEntryGuard.EntryByName` | build-plugins/plain-node-entry-guard.ts:111-116 | the table maps exactly the non-empty names of entry chunks, each to the last entry chunk of that name |
| `AccessibilityRenderer.Renderer.Walk` | native/computer-use-linux/runtime.py:402-438 | the recursive method that appends to `records` and `lines` and sets the truncation flags leaves them as `Render` does; it recurses on the tree, since the elide branch keeps the depth |
| `AccessibilityRenderer.Renderer.WalkChildren` | native/computer-use-linux/runtime.py:414-415 | the loop over the indexed children folds `Render` over them, in order and with their own indexes in the path |
| `AccessibilityRenderer.RenderAccessibilityTree` | native/computer-use-linux/runtime.py:349-441 | a render starts from empty output at depth 0 with the source's caps |
| `TreeRendering.RenderExtends` | native/computer-use-linux/runtime.py:402-438 | with compaction off, a call of `walk` appends exactly the first entries, as many as there is room for, of the list of entries that the uncapped walk of the same subtree visits, numbered on from the records already there |
| `TreeRendering.CapIsPrefix` | native/computer-use-linux/runtime.py:402-441 | with compaction off, records and lines under a node cap are exactly the first `maxNodes` of the render of the same tree under any cap large enough for all of it |
| `TreeRendering.RecordOwnsLine` | native/computer-use-linux/runtime.py:408-431 | with compaction off, record i has index i, was made from the i-th visited entry, and line i reads back as element i |
| `TreeRendering.NotTruncatedIsWhole` | native/computer-use-linux/runtime.py:402-407 | `truncated == false` means the output is the render of the whole tree with both caps lifted |
| `TreeRendering.TruncatedIff` | native/computer-use-linux/runtime.py:402-407 | `truncated` is set exactly when some call of `walk` is too deep or comes after the cap was filled |
| `TreeRendering.RenderComesFrom` | native/computer-use-linux/runtime.py:402-438 | with or without compaction the node cap holds and every record was made from a visited entry |
| `TreeRendering.RecordsResolve` | native/computer-use-linux/runtime.py:330-346 | every record of a render of a subtree, compacted or not, is looked up as the very node it was made from, despite gaps in the child indexes and elided ancestors |
| `TreeRendering.RuntimeCompaction` | native/computer-use-linux/runtime.py:437-438 | compaction only removes records, and with it switched off it changes nothing, so every configuration the program uses falls under the results above |
| `AccessibilityRenderer.MakeSnapshot` | native/computer-use-linux/runtime.py:649-681 | a snapshot shows the window chosen, after a restore by the index first chosen, and fails exactly when no window can be chosen; without compaction its records and lines are the nodes shown in that window, as the next rows say, at most 1,200; with or without it every record is that of a shown node, and on the unchanged tree is looked up as that very node |
| `SnapshotContents.RenderShowsWindow` | native/computer-use-linux/runtime.py:271-284 | said of the tree alone: without compaction and with `truncated` unset, a path has a record if and only if its node is no bare container and no node above it, unless bare itself, has a summary or is a labelled control of one of the ten compact roles; records and lines come in document order, each with the number, path, fields, tabs and text of its node |
| `SnapshotContents.VisitsDepict` | native/computer-use-linux/runtime.py:402-438 | the entries that rendering visits, from any node and depth, are exactly the nodes so shown, in document order and at the depth that counts the shown nodes above |
| `SnapshotContents.SmallWindowIsWhole` | native/computer-use-linux/runtime.py:402-407 | a window with at most 65 nodes is never truncated, so the above holds of it outright |
| `TreeRendering.RenderedNotElided` | native/computer-use-linux/runtime.py:413-416 | no visited entry is one that the policy elides |
| `TreeRendering.NothingBelowHidden` | native/computer-use-linux/runtime.py:432-433 | on a tree with distinct child indexes nothing is rendered below a node that hides its children |
| `AccessibilityTree.FindByPath` | native/computer-use-linux/runtime.py:727-733 | the loop computes the path lookup whose meaning the next row states |
| `AccessibilityTree.PathIsFollowed` | native/computer-use-linux/runtime.py:727-733 | a path leads to a node exactly if each of its indexes names a child by its own index, not by position; otherwise the lookup fails |
| `AccessibilityTree.FindElement` | native/computer-use-linux/runtime.py:750-756 | the loop-based lookup is the path lookup filtered by the signature |
| `AccessibilityTree.LookupSound` | native/computer-use-linux/runtime.py:750-767 | on any tree, changed or not, a lookup returns only the node at the saved path, and only if role, name, identifier and actions are as saved |
| `AccessibilityTree.WindowsAreChildren` | native/computer-use-linux/runtime.py:134-141 | the windows are exactly the children that have extents or a window role |
| `AccessibilityTree.ChooseWindow` | native/computer-use-linux/runtime.py:144-161 | the loops choose `ChosenWindow`, whose meaning the next row states |
| `AccessibilityTree.ChosenWindowMeans` | native/computer-use-linux/runtime.py:144-161 | the choice is the first window with the requested index; without a request the first active one, else the first showing one, else the first; each error has exactly its own cause |
| `AccessibilityRenderer.Renderer.CompactRenderedBrowserTabs` | native/computer-use-linux/runtime.py:444-475 | the in-place deletions, from the last tab line to the first, the filtered records and the inserted marker amount to the specification that the conservation rows are about |
| `CompactionMeaning.CallMeans` | native/computer-use-linux/runtime.py:444-495 | said of the lines and records alone: with ten tab lines or more, some active and some not, those that are not active go, one marker line with their number takes the first tab's place, and exactly the records go whose number such a line showed; otherwise nothing changes; a tab line is tabs, digits, a blank and one of three roles, and an active one says so or shows a last record that is selected or has value 1 |
| `AccessibilityRenderer.Renderer.DirectTabLines` | native/computer-use-linux/runtime.py:445-449 | the list holds exactly the positions of the direct tab lines from the start line on |
| `AccessibilityRenderer.Renderer.ActiveTabLines` | native/computer-use-linux/runtime.py:452-457 | the set holds exactly the positions of the active tabs |
| `AccessibilityRenderer.Renderer.DeleteInactiveTabs` | native/computer-use-linux/runtime.py:461-471 | deleting last first removes exactly the inactive tab lines, counts them and collects their element numbers |
| `TabCompaction.LinesConserved` | native/computer-use-linux/runtime.py:444-475 | unless the call is idle (fewer than ten direct tabs, none active, or none inactive), taking the marker out leaves exactly the lines that are not inactive tabs in their old order; the marker stands at the first tab's position and its number is the number of lines removed |
| `TabCompaction.RecordsConserved` | native/computer-use-linux/runtime.py:467-474 | on uniquely indexed records exactly the records of the dropped lines go, one for each, and the others keep their order |
| `TabCompaction.PrefixKept` | native/computer-use-linux/runtime.py:447 | lines before the start line are untouched |
| `TabCompaction.AppendedStayUnique` | native/computer-use-linux/runtime.py:408 | after a compaction that dropped some of the records numbered 0 to n - 1, indexes stay unique while more records are appended if and only if every number below n that comes up again belonged to a dropped record |
| `CompactedRendering.UniqueUpToFirstCall` | native/computer-use-linux/runtime.py:402-438 | with compaction on, a render in which no call drops anything is numbered 0, 1, 2, ...; otherwise the first call that drops something works on such records, each direct tab line naming its own |
| `CompactedRendering.FirstCallUnique` | native/computer-use-linux/runtime.py:402-438 | the same for the walk of any subtree, from any numbered output |
| `CompactionExamples.IndexesCollide` | native/computer-use-linux/runtime.py:408 | uniqueness does fail: for one window with ten tabs in a tool bar and a button after it, two records of the render have one index |
| `TabCompaction.StayingRecordLostIff` | native/computer-use-linux/runtime.py:467-474 | on any records, the record that a staying line shows is lost exactly if the call is not idle and some dropped line shows the same number |
| `CompactionExamples.RecordOfStayingLineLost` | native/computer-use-linux/runtime.py:467-474 | that happens: for one window with two tool bars of ten tabs, the render has a line whose element number no record has |
| `TabCompaction.WhereIsExact` | native/computer-use-linux/runtime.py:445-449 | the positions listed by the specification are exactly those that pass the test |
| `RenderedLines.ReadIndex` | native/computer-use-linux/runtime.py:517-520 | reading the number of a rendered line gives back the element's index, for every index and depth |
| `RenderedLines.TabLineHasIndex` | native/computer-use-linux/runtime.py:478-485 | a direct tab line always has an element number, so every dropped line names a record |
| `DescendantSearch.FirstDescendant` | native/computer-use-linux/runtime.py:586-606 | on any graph, cyclic or not, the explicit-stack loop ends and tests what the recursive search tests; no node is tested twice and at most `max_nodes` are; on a tree it finds the first match of the budgeted preorder |
| `DescendantSearch.SearchOnTree` | native/computer-use-linux/runtime.py:586-606 | on a tree the recursive search returns the first match among the first `max_nodes` nodes of the depth-bounded preorder, or nothing |
| `DescendantPaths.FirstInDocumentOrder` | native/computer-use-linux/runtime.py:586-606 | said of index paths alone: on a tree the search returns the first match, in document order, among the first `max_nodes` of the nodes that a path of at most `max_depth` child indexes leads to, or nothing if none of those matches |
| `DescendantPaths.PreorderSpots` | native/computer-use-linux/runtime.py:600-605 | on any graph the depth-bounded preorder lists exactly the ends of those paths, in document order |
| `DescendantSearch.FoundIsNear` | native/computer-use-linux/runtime.py:586-606 | on any graph a node that is found matches and is at most `max_depth` edges away |
| `DescendantSearch.SearchSound` | native/computer-use-linux/runtime.py:586-606 | the recursive search keeps the tested nodes distinct and within the budget, and a found node is the last one tested and matches |
| `DescendantSearch.NothingMissedUnlessSpent` | native/computer-use-linux/runtime.py:586-606 | on any graph, cyclic, shared or infinite, if the depth bound is at least the node budget, a search that finds nothing has used up the budget or there is nothing to find |
| `DescendantSearch.FindsIffReachable` | native/computer-use-linux/runtime.py:586-606 | on any graph with no more nodes than the node budget and no repetition-free walk from the root longer than the depth bound, the search finds a match exactly when one can be reached |
| `DescendantSearch.SmallGraphsHaveShortPaths` | native/computer-use-linux/runtime.py:586-606 | a graph with at most one node more than the depth bound meets the second condition |
| `DescendantSearch.SharedNodeHidesMatch` | native/computer-use-linux/runtime.py:599-600 | beyond those conditions it can miss a match although it is among the first `max_nodes` of the depth-bounded preorder: a node first met at the depth bound is never expanded |
| `AgentAwake.NoLeak` | src/main/agent-awake-service.ts:105-118 | in every run, whatever call throws and whatever the system drops, everything the system holds is the remembered blocker: at most one, and none when none is remembered |
| `AgentAwake.RefreshDecides` | src/main/agent-awake-service.ts:108-117 | with working calls a refresh leaves the lock held exactly when the service is enabled and some status is eligible |
| `AgentAwake.EventDecides` | src/main/agent-awake-service.ts:84-118 | in every reachable state every event leaves the setting and the statuses it gives; an event that does not count changes nothing; after one that counts, with working calls, something is held exactly if the service is enabled and some status is working, observed, finite and at most 7,200,000 ms old at the second reading |
| `AgentAwake.DisposeReleases` | src/main/agent-awake-service.ts:97-103 | after any run, disposing leaves no timer, no listener and no assertion that may call back, and nothing held exactly when nothing was held before or the blocker was let go by the stop call or the system |
| `AgentAwake.QuietAfterDispose` | src/main/agent-awake-service.ts:97-103 | once disposed with nothing held, timers, resumes, assertion callbacks and drops never take the lock again |
| `AgentAwake.EarliestExpiryIsLeast` | src/main/agent-awake-service.ts:137-154 | the scan yields the least expiry strictly after the clock reading, and none exactly when there is none |
| `AgentAwake.TimerIsEarliest` | src/main/agent-awake-service.ts:134-162 | in every run a pending timer is due at the least expiry, among the present statuses, that was ahead at the clock reading of the last refresh; there is none exactly when nothing was ahead then, or no refresh has happened since the start or since disposing |
| `AgentAwake.HoldWithoutTimerIff` | src/main/agent-awake-service.ts:105-149 | a refresh asks for the lock and arms no timer if and only if the service is enabled, no tracked expiry is ahead of its first clock reading, and one is not yet past at its second; the clock may step back in between |
| `AgentAwake.ExactExpiryIff` | src/main/agent-awake-service.ts:130-149 | with a clock that does not step back, that means both readings fall exactly on the last tracked expiry, and every eligible status then expires at that reading |
| `AgentAwake.ExactExpiryExample` | src/main/agent-awake-service.ts:130-149 | that boundary is reachable: one status refreshed exactly at its expiry, with every call working, leaves the lock held and no timer |
| `AgentAwake.HoldWithoutTimerLasts` | src/main/agent-awake-service.ts:60-81 | a lock held without a timer is let go, once every expiry is past and calls work, exactly by the first resume of the machine, callback of a failing or retrying platform assertion, or drop by the system; timer events change nothing, however much time passes |
| `AgentAwake.HoldIsTimed` | src/main/agent-awake-service.ts:105-118 | a requested hold has its timer armed unless some expiry lies between the two clock readings of the refresh |
| `AgentAwake.FiringsBounded` | src/main/agent-awake-service.ts:155-158 | in every run that sets no new statuses, with resumes, assertion callbacks, toggles and drops in between, the firings of the timer and the distinct expiries still ahead at the end together number at most the distinct expiries ahead at the start |
| `AgentAwake.FiringsRelease` | src/main/agent-awake-service.ts:155-158 | once the timer has fired that often, no timer is left, and any later refresh arms none and asks for the lock only if an expiry falls between its clock readings |
| `AgentAwake.LastFiringReleases` | src/main/agent-awake-service.ts:105-158 | with working calls the last of these firings leaves nothing held, unless it falls on an expiry |
| `AgentAwake.AgentAwakeService.UpdateEnabled` | src/main/agent-awake-service.ts:84-90 | `setEnabled` takes the step of the state machine the runs are made of |
| `AgentAwake.AgentAwakeService.UpdateStatuses` | src/main/agent-awake-service.ts:92-95 | `setStatuses` takes that step |
| `AgentAwake.AgentAwakeService.OnStaleTimer` | src/main/agent-awake-service.ts:155-158 | the timer callback takes that step |
| `AgentAwake.AgentAwakeService.OnResume` | src/main/agent-awake-service.ts:74-81 | the resume listener takes that step |
| `AgentAwake.AgentAwakeService.OnAssertionFailure` | src/main/agent-awake-service.ts:60-73 | the callback of a platform assertion takes that step |
| `AgentAwake.AgentAwakeService.DisposeService` | src/main/agent-awake-service.ts:97-103 | `dispose` takes that step |
| `AgentAwake.AgentAwakeService.Refresh` | src/main/agent-awake-service.ts:105-118 | `refresh` changes the whole state as the specification does |
| `AgentAwake.AgentAwakeService.GetEligibleRunningStatusCount` | src/main/agent-awake-service.ts:120-132 | the count is that of the wake-eligible statuses |
| `AgentAwake.AgentAwakeService.ScheduleStaleTimer` | src/main/agent-awake-service.ts:134-162 | the timer is set to the earliest expiry, or cleared |
| `AgentAwake.AgentAwakeService.StartBlocker` | src/main/agent-awake-service.ts:172-190 | starting reconciles first and last, and forgets nothing when a call throws |
| `AgentAwake.AgentAwakeService.StopBlocker` | src/main/agent-awake-service.ts:240-257 | stopping forgets the identifier only after `isStarted` denied it |
| `AgentAwake.AgentAwakeService.ReconcileBlocker` | src/main/agent-awake-service.ts:259-278 | an error counts as still started |
| `DockIconCommand.ReleasesExactlyOnce` | src/main/app-icon.ts:136-208 | over every interleaving of callback, exit, close and both timers a command releases the queue at most once, and exactly once within 12,000 ms of its start; if the process is still alive then, the force timer released it |
| `DockIconCommand.ReleasedIff` | src/main/app-icon.ts:149-206 | in every run the queue has been released exactly if starting threw or called back, or the callback came, or the second timer fired, or the first one with no child, or an exit or close after it |
| `DockIconCommand.TimersAreLate` | src/main/app-icon.ts:63-64 | no timer gives up early: by the time the first has fired 11,000 ms have passed, by the second 12,000 ms |
| `DockIconCommand.OutlivesTurnIff` | src/main/app-icon.ts:176-189 | in every run a command's process is alive after the 12,000 ms bound exactly if a child was started, did not call back at once and never exited; a command that has released with a living process was released by the force timer |
| `DockIconCommand.ForceReleasesAlive` | src/main/app-icon.ts:184-188 | such a run exists, so the comment that the queue never releases while an older process can still win fails for a child that ignores the kill for a second |
| `DockIconCommand.HandleSound` | src/main/app-icon.ts:149-189 | every event keeps the command's invariant, and once settled an event changes nothing but the process |
| `DockIconCommand.BoundedCommand.constructor` | src/main/app-icon.ts:144-206 | starting arms the first timer, and a throwing `execFile` or a synchronous callback settles at once |
| `DockIconCommand.BoundedCommand.Finish` | src/main/app-icon.ts:149-162 | the callback settles once, clears both timers and releases |
| `DockIconCommand.BoundedCommand.FinishAfterFallback` | src/main/app-icon.ts:164-174 | the fallback settles once, clears the force timer and releases |
| `DockIconCommand.BoundedCommand.OnFallback` | src/main/app-icon.ts:176-189 | without a child it settles; with one it listens, arms the force timer and kills |
| `DockIconCommand.BoundedCommand.Deliver` | src/main/app-icon.ts:144-207 | the callbacks together take the steps of the state machine and keep its invariant |
| `DockIconHistory.LastWriterWins` | src/main/app-icon.ts:214-219 | over all interleavings, once the queue has drained the last turn ran, for the icon last asked for, the command that sets it or the three that clear a custom one; of all commands started before it, when it began, and of all commands, now, a process is alive exactly if its start left a child running whose exit no step of the run reported, and the force timer gave up on it |
| `DockIconHistory.LastTurnLeaves` | src/main/app-icon.ts:221-288 | whatever the bundle was like, the commands of that turn leave the icon last asked for, or none of the three marks for the classic one |
| `DockIconHistory.TurnsBeginNewest` | src/main/app-icon.ts:275-287 | each turn began when its request was the newest of those asked for so far, and carries the icon asked for |
| `DockIconHistory.MarksWaitForAppKit` | src/main/app-icon.ts:254-259 | in every run the Finder and resource fork marks are removed only after the removal of the AppKit icon has released the queue |
| `DockIconHistory.EarlierProcessesDead` | src/main/app-icon.ts:184-188 | whenever a turn begins, every process of every earlier turn is dead, except a child that its start left running, whose exit no step of the run so far reported, and that ran to the force timer; no command started before is left out of the account |
| `DockIconHistory.AliveIffNoExit` | src/main/app-icon.ts:136-208 | in every run, from any state, a command's process is alive exactly if it was before, or its start left a child running, and no step of the run reported its exit |
| `DockIconQueue.RunAccounted` | src/main/app-icon.ts:136-288 | in every run each command ever started is still accounted for, as what a possible run of its own made of it |
| `DockIconQueue.TurnsFollowRequests` | src/main/app-icon.ts:262-288 | commands run in request order, and each turn was the newest request when it began |
| `DockIconQueue.CommandsAreBounded` | src/main/app-icon.ts:63-64 | in every run each command, of the current group or an earlier one, has released the queue at most once, and has done so 12,000 ms after its start; the account holds every command started |
| `DockIconDrain.QueueDrains` | src/main/app-icon.ts:214-219 | from every reachable state, however each single process is started from then on, the queue drains by its own steps and timers alone, even if no process ever calls back or exits again, within 12,000 ms for each group left and one more, and then the newest request has won |
| `DockIconDrain.NeverStuck` | src/main/app-icon.ts:214-219 | in every reachable state with work left, one step of the queue, or waiting for the first timer due and firing it, leaves strictly less to do; the wait ends within the 12,000 ms of the command whose timer it is |
| `DockIconDrain.ProgressIsBounded` | src/main/app-icon.ts:144-219 | between two requests the productive steps of any interleaving number at most what was left to do, so no event undoes progress |
| `DockIconQueue.RunKeeps` | src/main/app-icon.ts:214-288 | every run keeps the queue's invariant: requests in order, turns in order and complete, live commands sound |
| `DockIconQueue.Persistence.PersistMacDockIcon` | src/main/app-icon.ts:262-275 | a request bumps the generation and queues its turn, or changes nothing off macOS, in development and without a bundle |
| `DockIconQueue.Persistence.BeginNextTurn` | src/main/app-icon.ts:275-287 | a stale turn ends without a command; the newest one starts its first group |
| `DockIconQueue.Persistence.ContinueTurn` | src/main/app-icon.ts:254-259 | when a group has released, the turn starts its next group or ends |
| `CommandFrontEnd.ValidatedHasHandler` | src/cli/registry-parity.ts:10-21 | if no spec lacks a handler, then every command line whose normalized path some spec reaches has its key in the handler table, whether it was typed as a canonical path, an alias or with positionals |
| `CommandFrontEnd.ReachedIsCanonical` | src/cli/args.ts:250-291 | a normalized path that some spec reaches is the canonical path of a spec |
| `CommandFrontEnd.ValidatedSpecIsDispatched` | src/cli/args.ts:286-301 | with unambiguous paths the spec that was validated is the one whose handler runs |
| `CommandNormalizing.NormalizedIsCanonical` | src/cli/args.ts:250-284 | normalizing binds the positionals of a registered spec that fits and yields its canonical path, or leaves the parse alone because no spec that normalizes fits |
| `CommandFrontEnd.NoGapsIff` | src/cli/registry-parity.ts:10-21 | both gap lists are empty exactly when every spec's canonical key has a handler and every handler key is the canonical key of some spec |
| `CommandFrontEnd.EveryHandlerIsReached` | src/cli/registry-parity.ts:17-18 | if no handler lacks a spec, and no canonical path reads as another command with positionals, then every handler is the one its canonical path normalizes to |
| `CommandFrontEnd.RunFrontEnd` | src/cli/index.ts:46-108 | for every argument list: the two agent-team commands with their arguments untouched, help exactly when it is wanted and always when `--help` stands anywhere, a rejection exactly when validation fails, otherwise a dispatch under the canonical key; with no gap in the registry a missing handler never |
| `CommandFrontEnd.NamedInArgv` | src/cli/args.ts:97-141 | a flag that stands anywhere in the arguments without a value of its own is present in the parse |
| `CommandFrontEnd.AllPathsAreNames` | src/cli/index.ts:25 | the paths that the parser looks ahead for are exactly those that name a spec |
| `CommandFrontEnd.RunParsed` | src/cli/index.ts:59-90 | the same from a parsed command line on |
| `CommandNormalizing.NormalizeCommandPositionals` | src/cli/args.ts:250-284 | on the result itself: the first spec and way of naming it that fits, with no more words behind it than positionals, gives the canonical path; each positional name not given as a flag holds the first value typed in its place, given flags keep their values, no other flag appears, and `conflicts` lists exactly the names typed both ways, in order; if nothing fits the parse is left alone |
| `CommandNormalizing.NormalizedMeans` | src/cli/args.ts:250-284 | the same of the function that the loops compute |
| `CommandNormalizing.BindPositionals` | src/cli/args.ts:268-280 | the loop over the positionals binds them in just that way |
| `CommandNormalizing.BindMeaning` | src/cli/args.ts:274-279 | a positional's name takes the first value typed in its place, unless it was given as a flag |
| `CommandNormalizing.BindKeeps` | src/cli/args.ts:274-279 | a flag given by name keeps its value, and no flag appears but the names of positionals that were typed |
| `CommandNormalizing.ConflictMeaning` | src/cli/args.ts:272-273 | the conflicts are exactly the positional names that were also given as flags |
| `CommandFrontEnd.FindCommandSpecFinds` | src/cli/args.ts:286-291 | the first spec that has the path as its own or as an alias is found, and none exactly when there is none |
| `CommandFrontEnd.ValidateCommandAndFlags` | src/cli/args.ts:293-326 | accepts exactly when some spec has the path, no positional clashes with a flag, every flag is one of the four global ones, one of the first such spec or its page flag, and the two global flags that need a value have a non-empty one; each error has its cause |
| `CommandTokens.LabelsRoundTrip` | src/cli/flags.ts:23-39 | for values free of NUL, `getRepeatedStringFlag` on `label` returns all its non-empty values in order, even values that start with `--` or contain `=` |
| `CommandArgs.CommandPathStartsAt` | src/cli/args.ts:81-95 | the loops decide whether the path's parts follow one another with only flags and their values between them |
| `CommandArgs.ParseArgs` | src/cli/args.ts:97-141 | the loop, which takes one or two tokens a turn, computes the parse that the rows above are about |
| `CommandTokens.ParseMeaning` | src/cli/args.ts:97-141 | every command line of words, assignments, switches, spaced values and lone flags is parsed token by token; a spaced value in front of the first word is taken for a command exactly if a registered one begins with it and none begins behind it |
| `CommandTokens.PathIsTheWords` | src/cli/args.ts:101-105 | with no spaced value in front of the first word, the command path is exactly the words, in order |
| `CommandTokens.FlagIsLastSetting` | src/cli/args.ts:72-141 | a flag is present exactly if some token sets it; a switch leaves it on, and of values, assigned or spaced, it holds the last, unless it is the repeatable flag |
| `CommandTokens.LabelHoldsItsValues` | src/cli/args.ts:72-79 | the repeatable flag holds all its values in order |
| `CommandTokens.FlagsAreOrderFree` | src/cli/args.ts:97-141 | two such command lines with the same words and the same settings of each flag parse alike, in whatever order and whatever commands are registered |
| `CommandTokens.SpacedBeforeCommand` | src/cli/args.ts:123-129 | a value flag in front of the command gives its value back to it exactly if a registered command begins with the value and none begins behind it, and is then merely on |
| `CommandTokens.NamedFlagIsPresent` | src/cli/args.ts:119-141 | a flag that any token names is present, wherever the token stands |
| `CommandTokens.PathStartsIff` | src/cli/args.ts:81-95 | a registered path starts at a token exactly if it begins the words from there on |
| `CalendarDate.AcceptsExactlyRealDates` | src/cli/linear-request-builders.ts:87-102 | a due date is accepted, and returned unchanged, exactly when it is four, two and two digits with hyphens between and the numbers those digits spell are a real Gregorian date of year 100 or later; each error has exactly its own cause |
| `CalendarDate.ComparisonIsExact` | src/cli/linear-request-builders.ts:92-98 | the three comparisons succeed exactly for the real dates from year 100 on |
| `CalendarDate.ReadBackIff` | src/cli/linear-request-builders.ts:93-98 | month and day overflow never lands back on the same triple: a day number is read back as the numbers it was made from exactly when they name a real date |
| `CalendarDate.FieldsAreReal` | src/cli/linear-request-builders.ts:95-97 | every day number, of either sign, is read as a real date that leads back to it |
| `CalendarDate.RealDateReadBack` | src/cli/linear-request-builders.ts:93-98 | every real date is read back from its day number |
| `CalendarDate.YearLength` | src/cli/linear-request-builders.ts:93 | the day-number formula gives leap years 366 days and other years 365 |
| `ShellWords.QuotingRoundTrip` | src/cli/shell-command-quote.ts:1-9 | any list of strings, printed by the non-Windows branch and joined by blanks, is read back unchanged under the quoting rules of section 2.2 of the POSIX Shell Command Language |
| `ShellWords.ReadPrinted` | src/cli/shell-command-quote.ts:2-8 | a printed word is read as one word, whatever follows it |
| `ShellWords.UnquotedIff` | src/cli/shell-command-quote.ts:2-8 | a word is printed without quotes exactly if it is not empty and consists of letters, digits and the six safe marks |
| `ShellWords.TokenizeLeadingShellWords` | src/cli/codex-command-classification.ts:86-122 | the loop with its early return computes the recursive scan that the next row is about |
| `ShellWords.TokenizerReadsPrinterIff` | src/cli/codex-command-classification.ts:86-122 | with a limit of at least 1, the tokenizer returns the first `limit` printed words if and only if each of those is non-empty and free of apostrophes |
| `ShellWords.LineTokens` | src/cli/codex-command-classification.ts:86-122 | for every line of words made of bare pieces and pieces in quotes of either kind, the tokens are the first `limit` non-empty texts of its words |
| `ShellWords.QuotedFirst` | src/cli/codex-command-classification.ts:92-103 | a first word in double or single quotes is the first token without its quotes, and the rest of the line gives the others |
| `ShellWords.UnclosedReadsAsClosed` | src/cli/codex-command-classification.ts:92-121 | a quote never closed reads as if it were closed at the end of the line |
| `ShellWords.TokenizePlain` | src/cli/codex-command-classification.ts:105-121 | from any number of tokens below the limit, plain words that still fit are appended in order |
| `RunnerScripts.SameCommands` | src/main/hooks.ts:404-490 | the `call` payloads of the Windows script are exactly the trimmed non-blank lines of the POSIX body, in order, for every script |
| `RunnerScripts.LinesJoinToNormalized` | src/main/hooks.ts:425-490 | joining the iterated lines with LF gives the normalized script, and splitting that at LF gives the lines, for every string: CR CR LF and lone CRs included |
| `RunnerScripts.IterateLfScriptLines` | src/main/hooks.ts:425-440 | the generator yields the LF-separated pieces, each but the last without one trailing CR |
| `RunnerScripts.NormalizeCrlfScriptLineEndings` | src/main/hooks.ts:471-490 | the chunk loop replaces every CR LF by LF and nothing else |
| `RunnerScripts.NormalizedMeans` | src/main/hooks.ts:471-490 | text without a CR LF stays as it is; otherwise the first CR LF becomes LF and the text behind it is normalized |
| `RunnerScripts.CommandsAreLines` | src/main/hooks.ts:404-423 | the commands are the trimmed lines that are not empty, each once and in order |
| `RunnerScripts.TrimMeans` | src/main/hooks.ts:411 | trimming takes away white space at both ends only, and all of it |
| `RunnerScripts.BuildWindowsRunnerScript` | src/main/hooks.ts:404-423 | the loop writes the header and, for each line, a blank line or a `call` with its exit guard |
| `RunnerScripts.BuildPosixRunnerScript` | src/main/hooks.ts:467-469 | the script is the header, the normalized text and a final LF |

## Left out

- AccessibilityRenderer.Renderer.Walk: text summaries, the wording of a line after its number, and role lower-casing are given functions of the node, and the record's frame, class name and native handle are left out, because the results hold for any of them.
- AccessibilityRenderer.MakeSnapshot: leaves out screenshots and the focus and selection summaries, which do not touch the records; what restoring a window does to the tree is a parameter.
- TreeRendering.CapIsPrefix: is stated with compaction off, because removing records makes room under the cap again.
- RenderedLines.TabLineHasIndex: takes `\d` as the ASCII digits.
- CommandFrontEnd.ValidateCommandAndFlags: does not say which of several bad flags is reported, because that follows the insertion order of a JavaScript map.
- CommandSuggestion.SuggestCommands: takes `localeCompare` as any total preorder on labels; that the result is unique needs it antisymmetric as well.
- WindowsCommandLine.RoundTrip: assumes of `Char.IsWhiteSpace` only that it includes the blank and the tab, which are the separators of the argv rules.
- ShellWords.QuotingRoundTrip: its reader gives up on unquoted special characters other than blanks, apostrophes and backslashes, because the printer never writes them.
- ShellWords.TokenizerReadsPrinterIff: assumes of `\s` only that it holds the blank and excludes the backslash and the printer's safe characters.
- AgentAwake.NoLeak: a `start` call that throws holds nothing in this model; one that threw after the system had taken the lock would leave it held, since its identifier is lost.
- AgentAwake.AgentAwakeService.Refresh: of the macOS and Linux sleep assertions only whether they are started, and so may call back, is kept; their processes, retry delays and failure counts are not, so a callback may come at any time while they are started.
- AgentAwake.AgentAwakeService.DisposeService: of disposing the two assertions only that they no longer call back is kept.
- DescendantSearch.FirstDescendant: takes `id(node)` to name one node throughout; an identifier that Python reuses for a later node is not modelled.
- DockIconCommand.ReleasesExactlyOnce: timers fire when they are due; a late firing would add its delay to the bounds of this row and of the queue's.
- DockIconHistory.LastWriterWins: which process writes the icon last is not modelled; that older processes are dead when a turn begins is.
- DockIconHistory.LastTurnLeaves: takes each command to do what it is for; one that fails is only logged, and leaves its mark as it was.
- PlainNodeEntryGuard.WriteBundle: what the smoke load shows is a parameter, since the built daemon is not part of this model.
- AT-SPI calls, Gdk, clipboard, input synthesis and screenshot encoding.
- The pattern for `require("electron")`, a given predicate on chunks.
- Logging, and the AppleScript and xattr bodies.
- Early and late firing and overflow of `setTimeout`; clock readings are unbounded integers.
- Rejected promises in the dock icon queue; its work never rejects.
- The handler table's construction, help texts, suggestions for unknown flags, and what handlers do.
- The list of paths that take a `page` flag; it is a given predicate on the spec's path.
- The Windows branch of `quoteCliCommandArgument`, `stripShellLaunchPrefix` and the classification of Codex subcommands.
- The file, git, WSL and process parts of `src/main/hooks.ts` and its policy functions, which are case splits.
- Strings are sequences of characters; UTF-16 surrogates and normalization are not modelled.
- Nothing here was executed.
