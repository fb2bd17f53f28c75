# Accessibility semantics and repository scripts, verified

This project models the toolkit-independent accessibility pipeline of a terminal emulator and three algorithms of its
repository scripts, and proves what they promise. `dafny verify dfyconfig.toml` checks the whole project.

**The pipeline.** A grid of terminal cells, with wide cells, a column permutation per row and a clip rectangle, is
projected into rows of grapheme clusters (`TerminalSpec`, `TerminalProjection`). The rows of the panes of a window's
active tab, with the input surfaces on top of them, are composed into one draft under shared budgets (`TreeSpec`,
`TreeProjection`). A draft becomes an immutable document of at most 512 rows, 16384 graphemes, 1 MiB and 256 nodes
(`DocumentSpec`, `Documents`). Ranges walk the text of a document's nodes by units (`RangeSpec`, `Ranges`), and a
scheduler coalesces the changes between documents into at most one publication per cycle (`EventSpec`, `Scheduler`).

**The scripts.** The number of cyclic components of the import graph by depth-first search (`Components`,
`ComponentSearch`, `PackageGraph`) with the compaction of its edge lines (`EdgeLines`), the least set of type names
that retain a seed type (`RetainedTypes`), and the reduction of a release version to a bundle version
(`PlistVersion`).

**How it is built.** A `...Spec` module says what an operation yields, as functions on values. The modules of the same
source file hold the loops and the fields that are updated in place, as methods and classes proved equal to those
functions. The `...Properties` and `...Meaning` modules and their neighbours prove what the functions promise, so every
result about a function is a result about the loop. What a result looks like from outside is told by raw fields, not by
the functions that compute it, in the modules `CellGeometry` and `PaneMeaning` (where graphemes stand, what a pane
shows), `SurfaceRules` and `TreeNodes` (what a window is made of), `DocumentFaults` (why a draft is refused),
`KeptText` (that nothing is cut that there was room for), `UnitMeaning` (what a unit of text is), `DrainMeaning` and
`DrainOrder` (what a cycle publishes). The `...Cases` modules take single inputs through the operations, with
`TextRows` for the terminals among them.

**The segmenter.** Grapheme segmentation is section 3.1.1 of Unicode Standard Annex #29, which is not part of this
model. `Graphemes.Segmenter` is any function that meets four laws, and every theorem holds for all of them; two
instances show that the laws can be met.

## What the proofs found

- Selections are clamped by row and column separately. One that lies wholly above or below the rows can come out
  reversed, and then the projection of the whole terminal is refused with an invalid range. `SpanOrdered` and
  `TerminalResultKnown` say exactly when; `SelectionOutsideCanReverse` is a case. Between rows of the terminal it
  happens only if the projection cut the later of them off; `SelectionOfRows` says exactly when, and
  `SelectionInsideCanReverse` is a case.
- Of several grapheme clusters that come from one cell, a selection that ends in that cell takes only the first
  (`SelectionTakes`, with the case `SelectionTakesHalfACell`).
- A transition compares the wrap flag and the rectangles of rows but not the graphemes they cover. Rows without
  rectangles can be reflowed without any event (`ReflowWithoutBoundsIsSilent`); `SilentTransitionLayout` says exactly
  when a silent transition moves a row. Between the documents of projected terminals and composed windows it never
  does (`ProjectedSilence`).
- Moving a range by a unit and back does not return when it lands on an empty segment, such as an empty soft-wrapped
  row (`MoveAndBack`, with the case `MoveDoesNotReturn`).
- Instance numbers repeat after exactly 2^64 drafts that compile (`InstancesAreDistinct`, `InstancesComeRound`).
- The projection budgets clusters and text but not the separators between rows. A pane, and a window, can therefore pass
  a limit without being marked; the document is cut and marked then (`TerminalTruncated` and `ComposedDocument`, with
  the cases `UnmarkedPaneIsCut` and `UnmarkedWindowIsCut`).
- The document cuts a name that is too long for the bytes that are left; the composition of a window refuses the window
  instead when it is the name of a pane (`PaneOrRefusal`, `LongNameRefuses`, with the case `NameIsNotCut`).

## Model

| member | source | states |
|---|---|---|
| `PackageGraph.StronglyConnectedCycles` | scripts/capture-architecture-maturity-baseline.go:178-231 | For every finite graph whose edges end in its nodes, and for every order of visiting the nodes, the number returned is the number of strongly connected components that have two nodes or a self edge, and it is 0 exactly when no path of at least one edge returns to its start. |
| `PackageGraph.CycleSearch.constructor` | scripts/capture-architecture-maturity-baseline.go:179-184 | A search starts with nothing numbered, nothing stacked and no cycle counted. |
| `PackageGraph.CycleSearch.Visit` | scripts/capture-architecture-maturity-baseline.go:186-219 | A visit keeps the search invariant (closed nodes form whole components and are counted exactly), numbers its node next, and leaves either the old stack or, if its node reaches an earlier open component, the old stack with its own nodes on top and an attained low link below its index. |
| `PackageGraph.CycleSearch.Scan` | scripts/capture-architecture-maturity-baseline.go:191-198 | After the loop over the successors every successor is numbered, and the low link is attained by some reachable stacked node and bounds every edge back into the stack below. |
| `PackageGraph.CycleSearch.Follow` | scripts/capture-architecture-maturity-baseline.go:191-198 | One turn of that loop extends the bound to one more successor and keeps the invariant. |
| `PackageGraph.CycleSearch.FollowNew` | scripts/capture-architecture-maturity-baseline.go:192-194 | The turn for a successor not yet numbered: the recursive visit numbers it, and its low link is taken over. |
| `PackageGraph.CycleSearch.FollowSeen` | scripts/capture-architecture-maturity-baseline.go:195-197 | The turn for a successor seen before: one on the stack lowers the bound, one in a closed component does not need to. |
| `PackageGraph.CycleSearch.PopComponent` | scripts/capture-architecture-maturity-baseline.go:202-218 | The pop loop restores the stack to what it was below the node, clears exactly the popped nodes' stack marks, and counts one cycle exactly when the popped set has two nodes or a self edge. |
| `ComponentSearch.RootHoldsComponent` | scripts/capture-architecture-maturity-baseline.go:199-218 | When a visit ends with its low link equal to its index, the nodes above it on the stack contain its whole strongly connected component: nothing of it was closed before and nothing lies below. |
| `ComponentSearch.RootReaches` | scripts/capture-architecture-maturity-baseline.go:199-218 | Conversely each of those stacked nodes belongs to the component, so the popped set is the component and not merely a superset. |
| `ComponentSearch.PopKeepsInv` | scripts/capture-architecture-maturity-baseline.go:199-218 | Closing a component keeps the whole search invariant: the closed nodes have no edge out of the closed set, and the counter is again the number of cyclic components among them. |
| `Components.CyclicComponentsGrow` | scripts/capture-architecture-maturity-baseline.go:216-218 | Closing one more whole component adds one to the number of cyclic components if it is cyclic and nothing otherwise; no component is counted twice. |
| `PackageGraph.StackEndsEmpty` | scripts/capture-architecture-maturity-baseline.go:225-230 | When no visit is open the stack is empty and every numbered node has been closed. |
| `Components.NoCycleIffAcyclic` | scripts/capture-architecture-maturity-baseline.go:216-230 | The number of cyclic components is 0 exactly for acyclic graphs. |
| `Components.ReturningPathIsCyclic` | scripts/capture-architecture-maturity-baseline.go:216-218 | Every returning path lies in one counted component. |
| `Components.CyclicHasReturningPath` | scripts/capture-architecture-maturity-baseline.go:216-218 | Every counted component holds a returning path. |
| `PackageGraph.BuildGraph` | scripts/capture-architecture-maturity-baseline.go:147-156 | The report is refused exactly when some local import names a package without a scored file, and then for the first such import; otherwise the adjacency lists hold exactly the imports, each with its line, and every edge ends in a member, which is what the cycle count needs. |
| `PackageGraph.WritePackageGraph` | scripts/capture-architecture-maturity-baseline.go:147-162 | End to end: a report exists exactly when all imports name members; it gives the number of packages, every distinct edge once and in order, as the importing package, an arrow and the imported one, and the cycle count of the import graph, 0 exactly when no chain of imports returns; a rejected one names the first import of a package that is no member. |
| `EdgeLines.Compact` | scripts/capture-architecture-maturity-baseline.go:168-176 | In place, the first slots hold the list with each run of equal neighbours reduced to one, and the slots after them keep their old values. |
| `EdgeLines.CompactedElements` | scripts/capture-architecture-maturity-baseline.go:168-176 | Compaction loses no distinct line and invents none. |
| `EdgeLines.CompactedDistinctIffGrouped` | scripts/capture-architecture-maturity-baseline.go:157-158 | The compacted list is free of duplicates exactly when equal lines stood next to each other before, which is what sorting beforehand is for. |
| `EdgeLines.SortSorts` | scripts/capture-architecture-maturity-baseline.go:157 | Sorting yields a sorted list of the same lines, each as often as before. |
| `EdgeLines.SortedIsUnique` | scripts/capture-architecture-maturity-baseline.go:157 | Two sorted lists of the same lines are one list, so it does not matter how the lines were sorted. |
| `EdgeLines.AtMostMeaning` | scripts/capture-architecture-maturity-baseline.go:157 | The order of the lines: one is at most another exactly when it is a beginning of it or has the smaller character where they first differ. |
| `EdgeLines.CompactedLines` | scripts/capture-architecture-maturity-baseline.go:157-158 | Sorting and compacting leaves the distinct lines in order, and as many as there are, whatever list they came in. |
| `RetainedTypes.NameSet.ExpandRetainedTypeNames` | scripts/check-maturity-gates.go:1963-1988 | Whatever order files are taken in, and though the set grows during a pass, the loop ends with the least set that holds the seeds and is closed under "declared, not Mux, and its type expression retains a member", which is that a member occurs in it (`RetainsWhatOccurs`). |
| `RetainedTypes.NameSet.VisitFiles` | scripts/check-maturity-gates.go:1965-1982 | A pass in any order of the files adds only names that every closed superset of the seeds must hold, and reports no change only if the set is closed. |
| `RetainedTypes.FieldListRetains` | scripts/check-maturity-gates.go:2041-2051 | A field list retains a name exactly when the type of some field does; an absent list never does. |
| `RetainedTypes.RetainsWhatOccurs` | scripts/check-maturity-gates.go:2002-2039 | An expression retains a set of names exactly when one of them occurs in it: when a path of positions through its elements, keys, values, fields, parameters and results leads to that identifier. |
| `RetainedTypes.RetainsInPart` | scripts/check-maturity-gates.go:2002-2039 | The recursive check, case by case: an identifier retains the sets it is in, and any other expression what one of its parts retains. |
| `RetainedTypes.RetainsByOneName` | scripts/check-maturity-gates.go:2002-2039 | For every type expression, retaining one of a set of names is retaining one single name of it: the recursive check distributes over union; which names those are is `RetainsWhatOccurs`. |
| `RetainedTypes.RetainsIsMonotone` | scripts/check-maturity-gates.go:2002-2039 | A larger set of names never makes an expression stop retaining. |
| `RetainedTypes.ChainedNamesAreClosed` | scripts/check-maturity-gates.go:1963-1988 | The names from which a chain of declarations leads to a seed form a closed set. |
| `RetainedTypes.LeastClosedIsChained` | scripts/check-maturity-gates.go:1963-1988 | A name is in the result exactly when a finite chain of declarations, in each of which the next name occurs, leads from it to a seed; the result is therefore independent of any visiting order. |
| `PlistVersion.NormalizePlistVersion` | scripts/package-macos.go:167-211 | The branches and the loop compute the normalised version and the exactness flag that the lemmas below are about. |
| `PlistVersion.NormalizedAsRead` | scripts/package-macos.go:167-211 | However a version is read as blanks, at most one letter v, parts between dots, a suffix from the first sign on and blanks, the result is its first three parts, each reprinted, if these are components, and else "0.0.0"; nothing else of it matters. |
| `PlistVersion.EveryVersionReads` | scripts/package-macos.go:167-183 | Every text can be read so. |
| `PlistVersion.SpaceIsBlank` | scripts/package-macos.go:168 | The blanks that are trimmed are the 25 code points with the Unicode property White_Space. |
| `PlistVersion.ReprintedWithoutZeros` | scripts/package-macos.go:196-205 | A part is reprinted as it is without its leading zeros, of zeros alone one is left. |
| `PlistVersion.JoinedWithDots` | scripts/package-macos.go:210 | Up to three parts are joined with a dot between them. |
| `PlistVersion.CanonicalParts` | scripts/package-macos.go:184-206 | The parts are accepted exactly when each has one to nine digits and nothing else; then each is reprinted from its value, and the flag stays set exactly when no part changed. |
| `PlistVersion.NormalizedIsPlistVersion` | scripts/package-macos.go:167-211 | For every input the result is one to three dot-separated integers without leading zeros. |
| `PlistVersion.NormalizedIsIdempotent` | scripts/package-macos.go:167-211 | Normalising the result again changes nothing and reports it exact. |
| `PlistVersion.ExactMeansUnchanged` | scripts/package-macos.go:167-211 | The result is reported exact if and only if it equals the input. |
| `PlistVersion.PlistVersionsAreFixed` | scripts/package-macos.go:167-211 | Every text that already has the plist form is its own normal form and is reported exact. |
| `PlistVersion.NormalizedKeepsNumbers` | scripts/package-macos.go:167-211 | When the input is accepted, the numbers of the result are, one for one, those of the first three parts of the input. |
| `PlistVersion.ComponentFitsInt` | scripts/package-macos.go:187-200 | An accepted part is below ten to the ninth, so the conversion error the source checks for cannot occur. |
| `PlistVersion.SplitOfJoin` | scripts/package-macos.go:180 | Splitting at dots undoes joining parts that hold no dot. |
| `PlistVersion.JoinOfSplit` | scripts/package-macos.go:210 | Joining undoes splitting, for every text. |
| `Utf8.ValidUtf8Prefix` | internal/accessibility/document.go:210-222 | The loop returns the shortened form that the next lemma characterises. |
| `Utf8.ValidMeansEncoded` | internal/accessibility/document.go:136 | A text is well-formed exactly when it is the encoding of a list of Unicode scalar values, in one to four bytes each. |
| `Utf8.ShortenedIsLongest` | internal/accessibility/document.go:210-222 | Of well-formed text the result is well-formed, a prefix within the limit, and at least as long as every other such prefix. |
| `Utf8.CutAtRuneStart` | internal/accessibility/document.go:218-221 | Cutting well-formed text where a code point may start leaves two well-formed texts. |
| `Utf8.ValidCutIsRuneStart` | internal/accessibility/document.go:218-221 | A cut that leaves a well-formed prefix is one where a code point may start, so stepping back to such a place never gives up a longer prefix. |
| `Graphemes.CodePointsAreLawful` | internal/accessibility/document.go:150-153 | The laws asked of the grapheme segmenter (pieces join to the text, none empty, re-segmenting a prefix of the pieces yields them, code points stay whole) are met by splitting into code points. |
| `Graphemes.MarkedLettersAreLawful` | internal/accessibility/document.go:150-153 | They are also met by a segmenter whose clusters have several code points: letters with the combining marks that follow. |
| `Documents.InstanceCounter.Next` | internal/accessibility/document.go:95 | The counter steps by one and wraps at 64 bits. |
| `Documents.DocumentBuilder.constructor` | internal/accessibility/document.go:52-57 | Construction starts empty, with the truncation mark of the draft. |
| `Documents.DocumentBuilder.TakeClusters` | internal/accessibility/document.go:150-172 | One row gives up exactly the clusters that both budgets have room for, with one valid rectangle each if it has any, and fails exactly when its rectangles do not match what was taken. |
| `Documents.DocumentBuilder.TakeRow` | internal/accessibility/document.go:131-179 | One row step: refused text, a separator after a hard row, a stop at any limit, and the exact rows, graphemes and counters afterwards. |
| `Documents.DocumentBuilder.TakeRows` | internal/accessibility/document.go:131-180 | The row loop with its breaks equals the recursive account of rows that the document properties are proved about. |
| `Documents.DocumentBuilder.BuildNode` | internal/accessibility/document.go:127-208 | The node, whether something of it was lost, and the counters after it; a negative or reversed place is an error. |
| `Documents.DocumentBuilder.AddNode` | internal/accessibility/document.go:65-85 | One node: identity check first, the name cut to what is left and charged, then the node; on success exactly one node and one index entry are added. |
| `Documents.AddAll` | internal/accessibility/document.go:65-85 | The node loop stops at the first error and otherwise adds the kept nodes in order. |
| `Documents.NewDocument` | internal/accessibility/document.go:48-100 | The document of a draft, its errors, and the counter: only a construction that compiled takes an instance number. |
| `DocumentProperties.FitsIsMaximal` | internal/accessibility/document.go:152-168 | The number of clusters taken stays within both budgets and is the largest that does: one more would exceed the grapheme or the byte limit. |
| `DocumentProperties.NamedKeeps` | internal/accessibility/document.go:70-75 | A charged name fits the byte limit, is a well-formed prefix of the draft's name, and is shorter only when the whole name did not fit. |
| `DocumentProperties.WithRowTiles` | internal/accessibility/document.go:139-176 | Adding a row, after the separator it needs, keeps the rows tiling the graphemes with exactly one separator after each hard row. |
| `DocumentProperties.AddRowsKeeps` | internal/accessibility/document.go:131-180 | After any number of rows the counters equal the sums, the limits hold, what was kept is a prefix of the unbudgeted graphemes, and something is missing exactly when the loop stopped early. |
| `DocumentProperties.BuildNodeKeeps` | internal/accessibility/document.go:127-208 | A built node keeps the limits, adds exactly its rows, graphemes and bytes to the totals, says nothing its draft does not say, and is marked stopped exactly when it is not complete. |
| `DocumentProperties.IndexGrows` | internal/accessibility/document.go:80-81 | The index keeps mapping each identity to its own position and nothing else, and every parent stays before its child. |
| `DocumentProperties.CompileKeeps` | internal/accessibility/document.go:48-100 | Every document is within the limits, its totals are the sums over its nodes, rows tile each node, each node is sound for its draft, provider and generation are the draft's, the focus is the draft's unless nodes were left out, and it is marked truncated exactly when the draft was or something of the draft is missing. |
| `KeptText.NodeKeepsMost` | internal/accessibility/document.go:131-180 | A node keeps all its rows and their text, or was cut where a limit is reached: no row was left, no grapheme, or the next one has more bytes than were left. |
| `KeptText.DocumentKeepsMost` | internal/accessibility/document.go:64-85 | Every document keeps of each node the longest well-formed beginning of its name that the nodes before it left room for, its rows to the end or up to a limit, and of each row the rectangles from the first on. |
| `DocumentRows.CompiledRows` | internal/accessibility/document.go:149-176 | In every document each row covers exactly the graphemes of its own text, and a node drafted with a rectangle for every grapheme has one for every grapheme it kept. |
| `DocumentTruncation.AddRowsFit` | internal/accessibility/document.go:131-180 | Rows whose unbudgeted totals fit the limits are never cut. |
| `DocumentTruncation.BuildNodeFits` | internal/accessibility/document.go:127-208 | A node is whole exactly when its unbudgeted rows, graphemes and bytes fit and its caret and selection lie in its text. |
| `DocumentTruncation.TruncatedExactly` | internal/accessibility/document.go:48-100 | A document is marked truncated if and only if its draft was, it has more than 256 nodes, or the limits have no room for what the kept nodes ask for or a place lies beyond its text; otherwise its three totals are what the draft asks for. |
| `DocumentOutcome.SafeRowsAreTaken` | internal/accessibility/document.go:131-180 | Clean rows with one valid rectangle per cluster, or none, never fail, wherever the budgets cut them. |
| `DocumentOutcome.AddNodesOutcome` | internal/accessibility/document.go:102-125 | For nodes with clean rows under earlier parents the loop succeeds exactly when every node is in order alone and new; otherwise it complains of an identity, an activation, a duplicate or a negative place and of nothing else. |
| `DocumentOutcome.CompileOutcome` | internal/accessibility/document.go:58-94 | For such a draft of at most 256 nodes with a focus among them or none, the document exists exactly when the nodes are in order, keeps that focus, and never fails for text, bounds, parents or focus. |
| `DocumentFaults.RowFault` | internal/accessibility/document.go:131-172 | A row is refused for its text exactly when a row is left and the text is malformed or breaks the line, and for its rectangles exactly when the text is clean, the row can be begun and the rectangles do not match the graphemes that the budgets take of it: too few, too many for a whole row, or one of negative size. |
| `DocumentFaults.ContentFault` | internal/accessibility/document.go:127-208 | A node is refused for the first row that is wrong, with the error of that row, or for a negative or reversed place if no row is. |
| `DocumentFaults.CompileFault` | internal/accessibility/document.go:48-125 | Whether any draft is refused and with which error, if and only if: for itself, for the first of its nodes that is wrong, in identity, activation, repetition, parent, text, rectangles or places, and in this order, or for its focus if no node is. |
| `DocumentFaults.CompiledIsClean` | internal/accessibility/document.go:48-125 | In every document each node has an identity of its own, of the projection of the first, with an activation where it needs one, a role and a well-formed name, under an earlier parent; each row has clean text and a rectangle of no negative size for every grapheme or none; and the rows stand in the text of their node one after the other, with one line feed after every hard row but the last. |
| `Scheduler.SemanticScheduler.constructor` | internal/accessibility/events.go:77-79 | A scheduler starts open, unpublished, with nothing pending. |
| `Scheduler.SemanticScheduler.BeginCycle` | internal/accessibility/events.go:81-91 | The whole state after a cycle begins; it reports whether anyone listens. |
| `Scheduler.SemanticScheduler.SetActive` | internal/accessibility/events.go:93-103 | The whole state after activation or deactivation; a closed scheduler ignores it. |
| `Scheduler.SemanticScheduler.QueueTransition` | internal/accessibility/events.go:105-131 | The whole state after a transition is queued: one invalidation for another provider, the differences in order for the same one, nothing when no one listens. |
| `Scheduler.SemanticScheduler.QueueAnnouncement` | internal/accessibility/events.go:133-141 | The whole state after an announcement is queued or ignored. |
| `Scheduler.SemanticScheduler.Drain` | internal/accessibility/events.go:143-163 | The events returned and the whole state after: the pending events in key order, or one invalidation after an overflow, and nothing when closed, inactive, published or empty. |
| `Scheduler.SemanticScheduler.Close` | internal/accessibility/events.go:165-171 | A closed scheduler is inactive and empty. |
| `Scheduler.SemanticScheduler.QueueLocked` | internal/accessibility/events.go:179-201 | The whole state after one event: replaced under its key, appended with a new key, or dropped with everything else at the 257th key; two events have one key exactly when they tell of the same thing (`KeysCoalesce`). |
| `Scheduler.SemanticScheduler.ClearLocked` | internal/accessibility/events.go:203-207 | Nothing is pending afterwards and nothing else changes. |
| `Scheduler.SemanticScheduler.QueueNodeDiffs` | internal/accessibility/events.go:209-226 | The text, caret and selection changes of the nodes both documents have, queued in node order. |
| `Scheduler.DocumentTopologyChanged` | internal/accessibility/events.go:228-239 | True exactly when the number of nodes or some node's identity, parent, role or name differs. |
| `Scheduler.DocumentGeometryChanged` | internal/accessibility/events.go:241-257 | True exactly when truncation, the number of nodes, an identity, a number of rows, or some row's wrap flag or rectangles differ. |
| `SchedulerProperties.FirstSeenMeaning` | internal/accessibility/events.go:179-201 | The order kept is the distinct keys of the events since the last clear, by their first event; `KeysCoalesce` says which events share a key. |
| `SchedulerProperties.LastOfMeaning` | internal/accessibility/events.go:188-191 | The event kept for a key is the last one queued for it. |
| `SchedulerProperties.ServeRefines` | internal/accessibility/events.go:81-207 | Each call of the map-and-slice scheduler does what the same call does on a machine that only keeps the log of events since the last clear. |
| `SchedulerProperties.SchedulerRefinesLog` | internal/accessibility/events.go:81-207 | Over every sequence of calls the scheduler returns what that machine returns: up to 256 distinct keys in first-seen order with the last event of each, beyond that one invalidation with the latest provider and generation. `CyclePublishes` says the same without keys. |
| `DrainMeaning.KeysCoalesce` | internal/accessibility/events.go:183-187 | Two events replace each other exactly when kind and announcement agree and either both are changes of the focus or their nodes agree. |
| `DrainMeaning.CyclePublishes` | internal/accessibility/events.go:81-201 | What a cycle publishes: of everything queued in it, the last event about each thing, in the order in which these things first came up and each once; or, when more than 256 different things came up, one invalidation of the document heard of last. |
| `DrainMeaning.OverflowMeaning` | internal/accessibility/events.go:192-198 | A cycle overflows exactly when events about 257 different things were queued in it. |
| `DrainMeaning.TransitionPublishes` | internal/accessibility/events.go:105-131 | What a cycle with one transition publishes: nothing without an intent or a document; the one invalidation of the new document if it is the first or of another provider; and else an event if and only if it is due, unless more than 256 things changed. |
| `DrainOrder.PublishedInOrder` | internal/accessibility/events.go:117-130 | These events come in order: the invalidation, the topology, the changes of the nodes as these stand in the document, of each the text before the caret and the caret before the selection, and the focus. |
| `DrainOrder.SwitchedOffForgets` | internal/accessibility/events.go:93-103 | A scheduler that was switched off and on again publishes nothing of what was queued before. |
| `DrainOrder.SwitchedOffIgnores` | internal/accessibility/events.go:105-163 | One that is switched off or closed ignores transitions, announcements and drains. |
| `DrainMeaning.AnnouncementPublishes` | internal/accessibility/events.go:133-141 | What a cycle with one announcement publishes: exactly that announcement, if it is a bell or a notification of a document. |
| `DrainMeaning.FewNodesFit` | internal/accessibility/events.go:105-131 | A transition to a document of at most 84 nodes never overflows, so every changed node has its event. |
| `SchedulerProperties.RunKeeps` | internal/accessibility/events.go:64-207 | In every reachable state order and pending hold the same keys, each once, at most 256; an overflow leaves both empty; publications are at most cycles plus one, and events lie between publications and 256 times as many. |
| `SchedulerProperties.StatsCountOutputs` | internal/accessibility/events.go:159-160 | The statistics are exactly what was returned: publications counts the non-empty results, events their lengths, and there is at most one publication per begun cycle and one before the first. |
| `SchedulerProperties.OnePublicationPerCycle` | internal/accessibility/events.go:143-163 | Between two calls that begin a cycle at most one drain returns events, and none once one has. |
| `SchedulerProperties.ClosedForever` | internal/accessibility/events.go:165-171 | After closing, every further sequence of calls returns nothing and leaves the statistics as they are. |
| `TransitionMeaning.NodeDiffsMeaning` | internal/accessibility/events.go:209-226 | An event is among the node differences exactly when it tells of a kept node to which that change happened and was asked for. |
| `TransitionMeaning.DiffsMeaning` | internal/accessibility/events.go:105-131 | Event by event, what a transition between two documents of one provider announces, if and only if: each kind exactly under its own change and intent, the truncation always. |
| `DrainMeaning.DiffsAreDue` | internal/accessibility/events.go:105-131 | The same by the fields of the two documents: which provider, generation and node each event names, and under which change and which intent. |
| `DrainMeaning.TopologyMeaning` | internal/accessibility/events.go:228-239 | The topology differs exactly when the lists of identities, parents, roles and names do. |
| `DrainMeaning.GeometryMeaning` | internal/accessibility/events.go:241-257 | The geometry differs exactly when the truncation or the lists of identities with their rows' wrap flags and rectangles do. |
| `TransitionProperties.DiffsEmptyIffUnchanged` | internal/accessibility/events.go:105-131 | With every intent set nothing is announced exactly when truncation, focus and every node's identity, parent, role, name, text, caret, selection, row count, wrap flags and rectangles are the same. |
| `TransitionProperties.NodeDiffsEmpty` | internal/accessibility/events.go:209-226 | With identities in the same places the node differences are empty exactly when no content changed; this uses that the index leads each identity to its own position. |
| `TransitionProperties.DrainIffChanged` | internal/accessibility/events.go:81-163 | In a freshly begun cycle of an open, active scheduler, a drain after a transition with every intent returns events if and only if the observable documents differ. |
| `TransitionProperties.WellFormedIndex` | internal/accessibility/document.go:80-81 | Every document that was built has the index that the transition lemmas ask for. |
| `SilentTransitions.SilentKeepsLayout` | internal/accessibility/events.go:241-257 | Two nodes that the comparison cannot tell apart have their rows in the same places if and only if the rows without rectangles have the same lengths in both. |
| `SilentTransitions.SilentTransitionLayout` | internal/accessibility/events.go:241-257 | For documents of one segmenter, a transition that announces nothing leaves the rows of a node where they were if and only if the texts of its rows without rectangles have as many graphemes as before. |
| `SilentTransitions.ProjectedRectangles` | internal/accessibility/tree_projection.go:250-279 | In every document of a projected terminal or a composed window each terminal has a rectangle for every grapheme, wherever the budgets cut it, and every node without them has at most one row. |
| `SilentTransitions.ProjectedSilence` | internal/accessibility/events.go:241-257 | Hence between two such documents a transition that announces nothing moves no row of any node. |
| `WindowCases.ReflowWithoutBoundsIsSilent` | internal/accessibility/events.go:250-254 | Two documents built from drafts whose rows have no rectangles, with the same text shared out differently: every intent is set, nothing is announced, and a row has moved. |
| `Ranges.TextUnitSegments` | internal/accessibility/range.go:269-299 | The segments of each unit, and the error for an unknown one; what they are to a range is said by `ExpandToCharacter`, `ExpandToRow` and `ExpandToAll`. |
| `Ranges.TextUnitBoundaries` | internal/accessibility/range.go:301-317 | The starts of the segments without repetition, then the end of the text. |
| `Ranges.FindSegment` | internal/accessibility/range.go:323-333 | The first segment that holds the position, the last one for a position at or past the end. |
| `Ranges.MoveAcross` | internal/accessibility/range.go:335-353 | The boundary reached and the number crossed, always in bounds for a position inside the node. |
| `Ranges.FindText` | internal/accessibility/range.go:225-267 | For every document, range, needle and comparison: a found range lies inside and matches, no match lies before it (after it when searching backward), nothing found means there is none or nothing was sought, and the range built from the match is never refused. |
| `Ranges.SearchForward` | internal/accessibility/range.go:259-264 | The forward loop stops at the first place that matches and misses none. |
| `Ranges.SearchBackward` | internal/accessibility/range.go:252-257 | The backward loop stops at the last place that matches and misses none. |
| `Ranges.ExpandRange` | internal/accessibility/range.go:134-146 | The range becomes the segment that holds its start: that grapheme, that row or the whole text. |
| `Ranges.MoveRange` | internal/accessibility/range.go:148-164 | The range becomes the segment `count` further on, as far as there are segments, with the number moved. |
| `Ranges.MoveRangeEndpoint` | internal/accessibility/range.go:166-195 | One endpoint moves across boundaries and takes the other along if it passes it. |
| `UnitMeaning.ExpandToCharacter` | internal/accessibility/range.go:134-146 | Expanding to a character takes exactly the one grapheme the range starts before; at the end of the text the last one, and in an empty text nothing. |
| `UnitMeaning.ExpandToRow` | internal/accessibility/range.go:134-146 | Expanding to a format run, a word or a line takes the stretch from the start of the row that holds the position to the start of the next row, or to the end of the text. |
| `UnitMeaning.ExpandToAll` | internal/accessibility/range.go:134-146 | Expanding to a paragraph, a page or a document takes the whole text of the node. |
| `UnitMeaning.MoveByCharacters` | internal/accessibility/range.go:148-164 | Moving by characters takes the one grapheme as many further on as it reports, which is as many as asked unless the first or the last of the text comes sooner. |
| `UnitMeaning.MoveByRows` | internal/accessibility/range.go:148-164 | Moving by rows takes the stretch of the row as many further on as it reports, which is as many as asked unless the first or the last row comes sooner. |
| `UnitMeaning.MoveByAll` | internal/accessibility/range.go:148-164 | Moving by paragraphs, pages or documents takes the whole text and reports no movement. |
| `UnitMeaning.UnitBoundaries` | internal/accessibility/range.go:301-317 | The boundaries of a unit are before every grapheme, at the start of every row, or at the start alone, and the end. |
| `UnitMeaning.EndpointMoves` | internal/accessibility/range.go:166-195 | An endpoint that is moved comes to the boundary of the unit as many further on as it reports, stops short only at an end of the text, and the other endpoint stays unless it is passed. |
| `UnitMeaning.EndpointMovesTo` | internal/accessibility/range.go:197-223 | An endpoint that is moved to a target comes to the start or the end of the target, as asked. |
| `UnitMeaning.ResolvesWhereMade` | internal/accessibility/range.go:93-102 | A range is valid on exactly the documents that make the same range of its node and its ends, and its node is the one the index leads to. |
| `UnitMeaning.OperationsRefuse` | internal/accessibility/range.go:93-223 | Which operations are refused and with which error, if and only if: for a range of another document as stale, for one outside the text of its node, for an unknown unit or a target on another node as invalid; and moving by nothing changes nothing. |
| `UnitMeaning.FoundIsText` | internal/accessibility/range.go:237-249 | What matches is exactly the text looked for, or text of the same length that folds to it piece by piece. |
| `RangeProperties.SegmentsTile` | internal/accessibility/range.go:269-299 | For every well-formed node and every known unit the segments tile the text from 0 to its length without gap or overlap; which tiling it is, `UnitBoundaries` says. |
| `RangeProperties.WellFormedIsReadable` | internal/accessibility/document.go:48-100 | Every document that was built meets what the range lemmas ask of a document. |
| `RangeProperties.SegmentIndexFinds` | internal/accessibility/range.go:323-333 | The search finds the one segment that holds an interior position and never falls through to its default. |
| `RangeProperties.IndexOfStart` | internal/accessibility/range.go:323-333 | A segment is found again from its start exactly when it is not empty or is the last. |
| `RangeProperties.ExpandIsIdempotent` | internal/accessibility/range.go:134-146 | Expanding twice is expanding once. |
| `RangeProperties.MoveStays` | internal/accessibility/range.go:148-164 | A moved range stays valid on the same document and node, at the segment the move reports. |
| `RangeProperties.MoveAndBack` | internal/accessibility/range.go:148-164 | Moving by a count and back by what was moved returns to the starting segment if and only if the landing segment can be found again from its start or the range started in the last one; an empty landing segment is where it fails. |
| `WindowCases.MoveDoesNotReturn` | internal/accessibility/range.go:148-164 | A document built from three lines, the middle one empty, on which a range moves by one line and does not come back. |
| `RangeProperties.BoundariesMeaning` | internal/accessibility/range.go:301-317 | The boundaries increase strictly from 0 to the length and are exactly the starts of segments and the end. |
| `RangeProperties.MoveBoundaryLands` | internal/accessibility/range.go:335-353 | A move lands on the boundary as many steps strictly beyond the position as it reports, and falls short of the count only at an end of the text. |
| `RangeProperties.MovesAdd` | internal/accessibility/range.go:335-353 | Two moves in the same direction equal one move by the sum. |
| `RangeProperties.MoveBoundaryBack` | internal/accessibility/range.go:335-353 | Moving back by what was moved returns to the position exactly when the position was itself a boundary or nothing was moved. |
| `RangeRuns.ApplyStays` | internal/accessibility/range.go:134-267 | An operation on a valid range succeeds exactly when its unit is known and its target is a range on the same node, and then its result is again a valid range of that node and instance. |
| `RangeRuns.RunKeepsRange` | internal/accessibility/range.go:134-267 | Over every sequence of operations, refused ones among them, a range of a document stays a valid range of its node and instance. |
| `RangeRuns.RunStays` | internal/accessibility/range.go:18-267 | From a new range, after any sequence of operations whatever, the range is valid, and the next operation is refused only for its unit or its target, never for the range. |
| `RangeRuns.StaleElsewhere` | internal/accessibility/range.go:93-102 | A document with another instance number refuses the range as stale, whatever is asked. |
| `RangeRuns.CounterCounts` | internal/accessibility/document.go:95-98 | The instance counter advances by one for every draft that compiles, round the 64 bits, and for no other. |
| `RangeRuns.InstancesAreDistinct` | internal/accessibility/document.go:95-98 | Two documents of one run have the same instance number if and only if the number of drafts that compiled from the one up to the other is a multiple of 2^64. |
| `RangeRuns.OthersRefuse` | internal/accessibility/range.go:93-102 | Whatever is done with a range of one document, every document constructed before or after it refuses it as stale, unless the drafts that compiled in between are a multiple of 2^64. |
| `RangeRuns.ExhaustedCounterRepeats` | internal/accessibility/document.go:95-98 | The construction that finds the counter exhausted is refused, and the next document has the number 1 again. |
| `RangeRuns.InstancesComeRound` | internal/accessibility/document.go:95-98 | In a run of 2^64 + 1 constructions of one draft the first and the last document have the same number. |
| `TerminalProjection.ValidateCells` | internal/accessibility/terminal_projection.go:242-269 | The one-pass check with its covered-until mark accepts exactly the rows where each cell fits, every continuation belongs to an earlier wide cell and every wide cell is followed by its continuations. |
| `PaneMeaning.ValidIsTerminal` | internal/accessibility/terminal_projection.go:158-171 | Which inputs are accepted, by their fields: a window and a pane of one projection, at most 262144 cells in rows of at most 16384, a wrap flag and perhaps an order for each row, cells with an area, and well-formed names of at most 4096 bytes. |
| `CellMeaning.ValidCellsTile` | internal/accessibility/terminal_projection.go:242-269 | A row of cells is accepted exactly when every cell is clean and every column belongs to exactly one leading cell. |
| `TerminalProjection.CollectChunks` | internal/accessibility/terminal_projection.go:186-208 | The text of the written cells up to the first that the byte budget has no room for, with the chunk of each; the checks repeated in the loop can never fire. |
| `TerminalProjection.ClusterCells` | internal/accessibility/terminal_projection.go:223-230 | The two pointers, one of them carried over from cluster to cluster, compute the smallest start and largest end over all chunks that overlap the cluster. |
| `TerminalProjection.OverlapCells` | internal/accessibility/terminal_projection.go:226-230 | The second pointer needs only the chunks from the first one on, up to the first that begins after the cluster, and still finds the smallest start and the largest end over all of them. |
| `TerminalProjection.BuildClusters` | internal/accessibility/terminal_projection.go:209-239 | The clusters that the grapheme budget has room for, each over its columns; the check for an empty stretch of columns can never fire. |
| `TerminalProjection.InverseOrder` | internal/accessibility/terminal_projection.go:278-302 | The in-place loop that checks range and repeats yields the position of each column in the order, or refuses the order. |
| `TerminalProjection.TerminalClusterBounds` | internal/accessibility/terminal_projection.go:304-328 | The union of the visible parts of a cluster's cells, or an empty rectangle at the corner of the clip; `GridIsComputed` and `GraphemeIsAroundItsCells` say where the cells are. |
| `TerminalProjection.ProjectTerminalRow` | internal/accessibility/terminal_projection.go:173-240 | One row with its trimming, its order, its chunks and its clusters, or an error. |
| `TerminalProjection.ProjectTerminalRows` | internal/accessibility/terminal_projection.go:116-128 | The row loop under what is left of the budgets, stopped by the first cut row or error. |
| `TerminalProjection.AssignRowOffsets` | internal/accessibility/terminal_projection.go:349-359 | In place, each row gets the offset that counts the clusters before it and one separator after each hard row. |
| `TerminalProjection.TerminalCellBoundary` | internal/accessibility/terminal_projection.go:361-377 | The boundary of a column in a row. |
| `TerminalProjection.DraftPane` | internal/accessibility/terminal_projection.go:131-155 | The draft of the pane: its rows with one rectangle per cluster, its caret only when shown at the bottom, its selection normalised and clamped. |
| `TerminalProjection.ProjectTerminalNode` | internal/accessibility/terminal_projection.go:104-156 | The draft of a pane under given budgets, or an error. |
| `TerminalProjection.ProjectTerminal` | internal/accessibility/terminal_projection.go:83-98 | The document of one pane and its window, or the error of either, and the instance counter afterwards: it advances exactly when the draft compiled. |
| `TerminalChunks.CollectTiles` | internal/accessibility/terminal_projection.go:186-208 | The chunks tile the collected text, lie over increasing separate columns of the row, and the text is well-formed, free of line breaks and within the byte budget. |
| `TerminalChunks.StretchIsHull` | internal/accessibility/terminal_projection.go:222-233 | For every stretch of the text the columns computed are attained by chunks that overlap it, so they are never empty, and they lie in the row. |
| `TerminalChunks.StretchesIncrease` | internal/accessibility/terminal_projection.go:214-238 | For later stretches neither the start nor the end column goes back. |
| `CellMeaning.ContentEndsAtLastInk` | internal/accessibility/terminal_projection.go:178-181 | Trimming removes exactly the blank cells after the last that is not. |
| `CellMeaning.CollectHoldsCells` | internal/accessibility/terminal_projection.go:189-208 | Each chunk holds the text of its cell; the text collected is that of the written cells in order; without a cut every one of them has its chunk, and a cut happens at the first that does not fit the byte budget. |
| `CellProperties.AcceptsPermutations` | internal/accessibility/terminal_projection.go:290-300 | An order is accepted exactly when it is a permutation of the columns, though the loop only checks range and repeats; a counting argument closes the gap. |
| `CellProperties.InverseIsTwoSided` | internal/accessibility/terminal_projection.go:290-301 | An accepted order and its inverse undo each other in both directions. |
| `CellProperties.BoundaryIsMonotone` | internal/accessibility/terminal_projection.go:361-377 | A column boundary stays within its row, never goes back as the column grows, and the one before a column is at most the one after it. |
| `CellProperties.BoundariesCross` | internal/accessibility/terminal_projection.go:361-377 | The boundary before one column passes the boundary after another exactly when a whole cluster lies between them. |
| `CellProperties.SpanOrdered` | internal/accessibility/terminal_projection.go:145-154 | The span of any selection is ordered if and only if its endpoints do not clamp to one row with a whole cluster between the end and the start column. |
| `CellProperties.SelectionInsideIsOrdered` | internal/accessibility/terminal_projection.go:145-154 | Hence every selection whose endpoint rows are projected rows has an ordered span, in either direction and with any columns. |
| `SelectionCases.SelectionOutsideCanReverse` | internal/accessibility/terminal_projection.go:386-398 | A terminal of three cells with a selection above its row, projected from the start: the span runs backwards and no document is built, because rows and columns are clamped separately. |
| `CellMeaning.CaretStandsAtCursor` | internal/accessibility/terminal_projection.go:141-144 | The caret stands at the first cluster that ends beyond the cursor's column, or at the end of the row. |
| `CellMeaning.SelectionTakes` | internal/accessibility/terminal_projection.go:145-154 | A cluster is in the span exactly when its row lies between the clamped endpoint rows and, in the first and last of them, its cells reach beyond the start column and begin by the end column; of several clusters over the end column only the first is taken. |
| `CellMeaning.EndpointsMeaning` | internal/accessibility/terminal_projection.go:379-398 | The endpoints of a selection, put in reading order, are moved to the nearest row and the nearest column. |
| `SelectionCases.SelectionTakesHalfACell` | internal/accessibility/terminal_projection.go:145-154 | A terminal with one cell of two graphemes, selected from itself to itself: both clusters lie over the cell, and the span is that of the first. |
| `TerminalProperties.ProjectedRowIsSound` | internal/accessibility/terminal_projection.go:173-240 | In every projected row the clusters are the graphemes of the text, each over the smallest cell interval that covers the chunks its bytes overlap, never empty, inside the row and never going back; and the document takes the row as it is. |
| `TerminalProperties.VisibleUnionIsHull` | internal/accessibility/terminal_projection.go:304-347 | The bounds of a cluster hold the visible part of each of its cells, stay in the clip, and lie in every rectangle that holds those parts; the cells stand on the grid of `GridIsComputed`. |
| `CellGeometry.GridIsComputed` | internal/accessibility/terminal_projection.go:304-313 | The rectangles of the cells tile a grid: row 0 at visual column 0 begins at the origin, every cell has the cell size, the right edge of a cell is the left edge of the next and the bottom of a row the top of the next; any such grid has the rectangles that the projection computes. |
| `CellGeometry.ComputedIsGrid` | internal/accessibility/terminal_projection.go:304-313 | There is such a grid. |
| `CellGeometry.CutIsGreatest` | internal/accessibility/terminal_projection.go:330-339 | What the clip leaves of a rectangle is the greatest rectangle inside both, and nothing is left exactly when none with an area is. |
| `CellGeometry.PlacesAreInverse` | internal/accessibility/terminal_projection.go:278-302 | A logical column stands at the visual column that the order maps to it, and this place is the one computed. |
| `CellGeometry.GraphemeIsAroundItsCells` | internal/accessibility/terminal_projection.go:104-347 | The rectangle of every grapheme of a projected pane is the smallest around the visible parts of the cells its text comes from, standing on the grid in the places of their columns; without a visible part it is empty, at the corner of the clip. |
| `TerminalProperties.ProjectedRowsAreSound` | internal/accessibility/terminal_projection.go:116-128 | The same for all rows, under the shrinking budgets. |
| `TerminalDocument.AddRowsAgrees` | internal/accessibility/document.go:131-180 | While the document inserts its separators, every kept row begins where the projection put it and ends there too, except a last row that the budgets cut. |
| `TerminalDocument.ClusterAtOffset` | internal/accessibility/terminal_projection.go:349-359 | At the offset of row i plus j the unbudgeted graphemes have cluster j of row i. |
| `TerminalDocument.ProjectedPaneShape` | internal/accessibility/terminal_projection.go:104-156 | Every projected pane is the draft of sound rows that carry their offsets, one for each row of the input unless the pane is marked truncated. |
| `PaneMeaning.PaneShows` | internal/accessibility/terminal_projection.go:104-240 | A projected pane shows the rows of its terminal from the first on, each with its own wrap flag and all the text of its cells up to the last that shows something, only the last perhaps in part; it is marked truncated exactly when the terminal was, or rows or the end of the last are left out. |
| `KeptText.PaneKeepsMost` | internal/accessibility/terminal_projection.go:112-128 | A pane leaves rows out only if its budget has no row left or its last row is cut, and cuts that row only where it holds the last cluster of the budget, or before a cell whose text has more bytes than are left. |
| `PaneMeaning.CaretMeans` | internal/accessibility/terminal_projection.go:141-144 | A pane has a caret exactly when the cursor is shown, the terminal is not scrolled back and the row of the cursor is kept, and then before the first grapheme that ends beyond its column. |
| `PaneMeaning.SelectionMeans` | internal/accessibility/terminal_projection.go:145-154 | A pane with rows has a selection exactly when its terminal has one; the clusters it takes are those between the clamped endpoints. |
| `PaneMeaning.TerminalNodes` | internal/accessibility/terminal_projection.go:83-98 | The document of a terminal is the window with its name and no text, and under it the pane with its name, which has the focus. |
| `TerminalDocument.NodeProjects` | internal/accessibility/terminal_projection.go:104-128 | Under any budgets a pane projects if and only if its input is valid, no budget is overdrawn and every row that the budgets reach has placed cells and an order of distinct columns; otherwise the error is that of an invalid projection and no other. |
| `TerminalDocument.PaneProjects` | internal/accessibility/terminal_projection.go:104-128 | The same for a terminal alone, under the limits of a document. |
| `TerminalDocument.TerminalOutcome` | internal/accessibility/terminal_projection.go:83-156 | The exact outcome of a pane that projects: its draft becomes a document if and only if the generation is below the maximum, the pane has an activation and the selection is not reversed, and otherwise the error is known. |
| `TerminalDocument.TerminalResultKnown` | internal/accessibility/terminal_projection.go:83-98 | End to end, the result of projecting a terminal for every input and counter: when there is a document, and otherwise which error; invalid bounds and invalid text never leave it. |
| `TerminalDocument.OffsetsAgree` | internal/accessibility/terminal_projection.go:129-155 | In the document of a projected pane every kept row and every kept grapheme stands at the offset the projection gave it, and caret and selection are the projected ones, clipped to what was kept. |
| `TerminalLimits.RowsAsk` | internal/accessibility/document.go:131-180 | Rows ask a document for their clusters, their text and one separator for each hard break between them: the sum that the recursive account of the builder comes to. |
| `TerminalLimits.PaneIsWithin` | internal/accessibility/terminal_projection.go:112-128 | A projected pane never has more rows, clusters or bytes of text than its budgets; the separators between its rows are not counted. |
| `TerminalLimits.PanePlacesFit` | internal/accessibility/terminal_projection.go:141-155 | The caret and the selection of a projected pane lie in its text. |
| `TerminalLimits.TerminalTruncated` | internal/accessibility/terminal_projection.go:83-128 | The document of a terminal is marked truncated if and only if the pane was, or its clusters and its inner hard breaks pass the limit of graphemes, or its names, its text and those breaks pass the limit of bytes; without the breaks neither limit is ever passed. |
| `LimitCases.UnmarkedPaneIsCut` | internal/accessibility/terminal_projection.go:112-128 | A terminal of two full rows whose pane is projected whole and not marked, and whose document is cut: the separator between the rows is one grapheme too many. |
| `TerminalLimits.SelectionOfRows` | internal/accessibility/terminal_projection.go:145-154 | A selection between rows of the terminal is refused if and only if the row of its later endpoint was cut off, the earlier one lies in the last kept row or was cut off too, and a whole cluster lies between their columns; a terminal that is not cut never refuses one. |
| `SelectionCases.SelectionInsideCanReverse` | internal/accessibility/terminal_projection.go:116-154 | A terminal of two rows, the second lost to the limit of graphemes, with a selection from the first into the second: the span runs backwards and no document is built. |
| `TreeProjection.ActiveTreeTab` | internal/accessibility/tree_projection.go:186-199 | The one active tab, none, or an error for two. |
| `TreeProjection.TreePaneIndex` | internal/accessibility/tree_projection.go:201-208 | The first pane of the identity, or -1. |
| `TreeProjection.TreeNodePresent` | internal/accessibility/tree_projection.go:220-227 | Whether some node has the identity. |
| `TreeProjection.AddTreeNodeBudget` | internal/accessibility/tree_projection.go:281-296 | The running counters grow by exactly what the node asks for unbudgeted: its rows, its graphemes with separators, and the bytes of its name and text. |
| `TreeProjection.BoundedTreeInputNode` | internal/accessibility/tree_projection.go:250-279 | The node of an input surface with its text cut to the budgets, or without a row when none is left. |
| `TreeProjection.ValidateTreeInput` | internal/accessibility/tree_projection.go:229-248 | An input surface is accepted exactly when it fits: identity, text, role, a present parent, and the right one for its role. |
| `TreeProjection.PlanReserve` | internal/accessibility/tree_projection.go:74-90 | Whether a preedit is planned for, and how many nodes are held back. |
| `TreeProjection.ComposePane` | internal/accessibility/tree_projection.go:100-130 | One turn of the pane loop: full, refused, or one more node with its counters. |
| `TreeProjection.ComposePanes` | internal/accessibility/tree_projection.go:91-131 | The pane loop with its early ends. |
| `TreeProjection.ComposeInputs` | internal/accessibility/tree_projection.go:132-160 | The winning input surface attached, dropped or refused, and the focus chosen. |
| `TreeProjection.ComposePreedit` | internal/accessibility/tree_projection.go:161-179 | The preedit attached, dropped or refused, and the draft closed. |
| `TreeProjection.ComposeDraft` | internal/accessibility/tree_projection.go:53-179 | The draft of a window: hidden, refused or composed; `ComposedNodes` says what each of its nodes is. |
| `TreeProjection.ComposeTree` | internal/accessibility/tree_projection.go:53-184 | A hidden window has no document and a composed draft is handed to the document builder as it is; the instance counter advances exactly when a draft compiled. |
| `SurfaceRules.TopmostIsWinner` | internal/accessibility/tree_projection.go:132-160 | The surface on top is the modal, else the search; a text field is dropped when its pane was left out; the focus is that of the surface, else of the focused pane if it is there, and only in a focused window. |
| `SurfaceRules.ValidIsWindow` | internal/accessibility/tree_projection.go:57-59 | Which windows are accepted, by their fields. |
| `SurfaceRules.ActiveTabIs` | internal/accessibility/tree_projection.go:186-199 | A tab is found exactly when it is active and no other is, none exactly when none is active, and anything else is refused. |
| `SurfaceRules.SurfaceIsInput` | internal/accessibility/tree_projection.go:229-248 | What makes an input surface acceptable, by its fields: an activated input of the projection, clean text within the limit, a present parent, and a dialog under the window or a text field under what it belongs to. |
| `SurfaceRules.HangsIsKept` | internal/accessibility/tree_projection.go:161-168 | The preedit is attached exactly when it hangs on what has the focus, this is there, and if it is or hangs on a pane this is among those never left out for want of nodes. |
| `TreeProperties.AddPaneKeeps` | internal/accessibility/tree_projection.go:99-131 | Every turn of the pane loop keeps the tree invariant: parents before children, rows the document takes, counters equal to the nodes' totals, the focused pane among the nodes once seen, and room for the reserved nodes. |
| `TreeProperties.ComposeKeeps` | internal/accessibility/tree_projection.go:79-179 | A composed draft has at most 256 nodes, every parent before its child, a focus that is one of its nodes or none, and running counters equal to the totals of its nodes. |
| `TreeProperties.ComposedDocument` | internal/accessibility/tree_projection.go:170-184 | The document of a composed draft keeps every node and the focus; it is refused exactly when some node is out of order, never for text, bounds, parents or focus; it is marked truncated if and only if the composition was, the running counters passed a limit or a place lies beyond its text; otherwise the running counters are the document's totals. |
| `TreeContents.AddPanesTakes` | internal/accessibility/tree_projection.go:99-131 | The panes taken are the first ones of the tab in their order, and the loop stops short only when something is full. |
| `TreeContents.PlannedPaneIsTaken` | internal/accessibility/tree_projection.go:84-90 | A preedit that hangs on the focused pane is planned for only if that pane is not left out for want of nodes: the pane is then taken unless rows, graphemes or bytes run out. |
| `TreeContents.ComposedContents` | internal/accessibility/tree_projection.go:79-179 | By their identities, the nodes of a composed draft are the window, its one active tab, the first panes, a modal of the window or search of the focused pane, and a preedit of what has the focus then, in this order; it lacks panes, or a focus under a focused window, only if marked truncated. |
| `TreeNodes.ComposedNodes` | internal/accessibility/tree_projection.go:79-179 | A composed draft, node by node and in full: the window and its one active tab by their own names, roles and parents and without text; the first panes, taken while a node, a row, a grapheme and a byte were left, each as it projects into what the nodes before it left, under the tab; the topmost surface and the preedit with their own names, roles, parents, carets and selections and the most of their text that both budgets have room for; the focus; and the mark of truncation exactly when a pane was left out or any text was cut. |
| `TreeNodes.AddPanesAre` | internal/accessibility/tree_projection.go:91-131 | The tree of the pane loop in the same terms, whether it came to the end or stopped. |
| `TreeNodes.BoundedIsAttached` | internal/accessibility/tree_projection.go:250-279 | The node of an input surface has all its fields, and the longest beginning of its text in whole graphemes that the nodes before it left room for, or no row when none is left. |
| `TreeContents.HiddenTabsStayOut` | internal/accessibility/tree_projection.go:49-58 | Windows that differ only in the names and panes of inactive tabs compose to the same draft. |
| `TreeContents.FitsBudgetIsMaximal` | internal/accessibility/tree_projection.go:253-265 | The text of an input surface is cut to the most clusters that both budgets have room for. |
| `TreeOutcome.PaneOrRefusal` | internal/accessibility/tree_projection.go:99-111 | One turn of the pane loop is refused if and only if there is room for the pane but it is not one of the window's, its name is longer than the bytes that are left, or it does not project into what is left. |
| `TreeOutcome.PanesOutcome` | internal/accessibility/tree_projection.go:99-131 | The pane loop is refused if and only if a pane that it comes to with room does not fit, and with the error of an invalid projection only. |
| `TreeOutcome.LongNameRefuses` | internal/accessibility/tree_projection.go:108 | A pane whose name is longer than the bytes that are left refuses the whole window; its name is never cut. |
| `LimitCases.NameIsNotCut` | internal/accessibility/tree_projection.go:108 | A window of two panes that each project alone, refused because the first leaves one byte for the name of the second, which has two. |
| `TreeOutcome.ComposeOutcome` | internal/accessibility/tree_projection.go:49-184 | For every window, exactly when nothing is to be seen and exactly when a draft is composed (panes that fit, surfaces that hang where they may, the focus there unless something was lost); in every other case the error is that of an invalid projection. |
| `TreeOutcome.TreeResultKnown` | internal/accessibility/tree_projection.go:49-184 | End to end, for every window and counter: nothing, a document, or which error; invalid text, invalid bounds, a wrong parent and a wrong focus never leave the composition. |
| `LimitCases.UnmarkedWindowIsCut` | internal/accessibility/tree_projection.go:108-125 | A window of one such terminal whose composition is not marked although its counters are past the limit of graphemes, and whose document is cut and marked. |

## Left out

- The property tables and rules of the grapheme segmenter and of case folding: both are abstract functions here, the
  segmenter with the laws of `Graphemes`, the folding with none.
- Rounding, NaN and infinities of rectangles: coordinates are exact reals, and their being finite is part of the type.
- The lock of the scheduler: each method is one atomic step, and every interleaving of steps is a sequence of calls.
- The scheduler's statistics are unbounded here; in the source they wrap at 64 bits. The intent bits without a name are
  one flag.
- SemanticScheduler.Stats, the accessors and snapshots of documents, and Range.Text, Rectangles, Equal and
  CompareEndpoints: they only read, and would add easy members.
- NewRange and MoveEndpointTo are functions without a loop to refine; RunStays covers them.
- A document whose index leads outside its nodes makes the source panic; the range and transition operations ask that
  it does not (`IndexInRange`), which every constructed document satisfies.
- Identities, kinds and roles outside their enumerations cannot be written here; the source refuses them as invalid.
- The texts that wrap an error; the check that raised an identity error is kept as `IdentityFault`.
- PackageGraph.StronglyConnectedCycles: sorting the nodes is replaced by any enumeration of them, which is more general.
- PackageGraph.WritePackageGraph: strings are ordered by code points, as their bytes in UTF-8 are, and the library's
  sort is any sort, since the sorted list is unique; the report's layout as text is not modelled.
- The call stack of the recursive visit is not modelled, and neither are reading files, parsing imports and writing the
  report.
- RetainedTypes.NameSet.ExpandRetainedTypeNames: the map from names to flags is a set of names, since no entry is ever
  false; expressions that the check does not look into are one constructor.
- PlistVersion.NormalizePlistVersion: the version is a sequence of code points, so the length bound of a part counts
  code points where the source counts bytes; a part longer in bytes than in code points has a character that is no
  digit and is refused by either.
- `Role` and `Kind` accessors, and the flag AlternateScreen of a terminal, which the projection never reads.
- Memory: slices that share storage, preallocated capacities and the reuse of the order slice after a clear.
- The git, packaging, signing, benchmark and smoke-run parts of the scripts, `cmd/cervterm`, `internal/action`,
  `internal/bellpolicy`, `internal/buildinfo`, `internal/config` and the font range table.
