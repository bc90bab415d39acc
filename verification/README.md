# Connected components by iterative relabeling, and the labeling cross-check

This project is a Dafny model of two small programs.

- `sccs32s` computes the connected components of an undirected graph given as
  an edge list. It reads the edges into a fixed-capacity store and gives every
  endpoint its own label (its own id). Then it repeats rounds until nothing
  changes. Each round has three steps.
  1. Scan the live edges. An edge whose endpoints already share a label is
     swap-removed. Any other edge proposes to merge its larger label into its
     smaller one, and the merge map keeps the smallest proposal per label.
  2. Resolve merge chains, so every merged label points straight at a label
     that is not merged further.
  3. Rewrite the labels. This is done either by a full scan of the label table
     or through an optional reverse index (label to member nodes).

  When a scan proposes nothing, every node carries the smallest id of its
  component.
- `sccs_compare` cross-checks two labelings. It reads both, sorts the first by
  node and the second by label, and looks every node of the second up in the
  first by binary search. Within each label group of the second labeling, it
  checks that all members have one label in the first.

The model is split into these modules:

- `Types`: 32-bit values and abstract input lines.
- `Graph`: paths, connectivity and the components labeling used as the
  reference definition.
- `GraphInput`: the edge reader.
- `LabelTable`: the label table, its initial state, the reverse index, and the
  reference relabeling `Apply`.
- `EdgeScan`: swap-remove, the scan and merge recording.
- `MergeChains`: chain resolution.
- `Relabel`: both relabel modes.
- `DriverProofs` and `Driver`: the loop, its invariant, termination and the
  whole program.
- `Compare`: the cross-check.

Design choices:

- Node ids and labels are the newtype `u32`.
- The edge store is a sequence that shrinks by swap-remove.
- The hash maps are Dafny maps. Their iteration order is an arbitrary choice
  (`:|`) from the keys still to visit.
- The reverse multimap is a set of (label, node) entries. Every node is filed
  once, so multiplicity never matters.
- The text parser is not part of this model. Each input line is abstracted to
  `Pair(a, b)`, `Overflow` (a value out of range or negative), `OtherError` or
  `Eof`. The end of the line sequence also counts as end of file.

The main results:

- `Driver.Run` always terminates. Its measure is the set of labels in use,
  which strictly shrinks every round.
- Its inconsistency flag is never raised.
- It returns exactly the components labeling: two nodes share a label if and
  only if they are connected, and the label is the smallest node id reachable.
- `Graph.ComponentLabelingUnique` then shows the result depends neither on hash
  order nor on the relabel mode.
- `Compare.CheckLabelings` answers "consistent" exactly when the grouping of the
  second labeling refines that of the first.

## Model

| member | source | states |
|---|---|---|
| GraphInput.ReadGraphAsWritten | sccs32s.cpp:92-107 | The reader as written stores every parsed pair in input order, skipping overflow lines. It returns their count when reading stopped at end of file and 0 after any other error. |
| GraphInput.CapacityIgnoredAsWritten | sccs32s.cpp:94-100 | A three-line input with two valid pairs ends at end of file and parses to two edges, so a capacity of one is overrun. |
| GraphInput.Memory | sccs32s.cpp:169-170 | The buffer is one block whose first array starts at word 0 and whose second starts at word `cap`. The writes of `n` pairs set exactly the words below `n` and the words from `cap` to `cap + n`. A skipped out-of-range line is taken to write nothing. |
| GraphInput.WritesWithinBuffer | sccs32s.cpp:138-170 | Every write lands inside the `2 * cap`-word block exactly when there are at most `cap` pairs. |
| GraphInput.MemoryWithinCapacity | sccs32s.cpp:94-100 | Within the capacity, word `k` holds the first value of pair `k`, and word `cap + k` holds its second value. |
| GraphInput.AliasedWithinCapacity | sccs32s.cpp:169-170 | Within the capacity the two arrays hold exactly the pairs that were written. |
| GraphInput.OverrunAliasesAsWritten | sccs32s.cpp:94-100 | With capacity 1 and the pairs (1, 2) and (3, 4), the value 3 overwrites the second array's slot 0, and 4 lands on word 2, past the block. The arrays then hold (1, 3) and (3, 4). |
| GraphInput.ReadGraph | sccs32s.cpp:92-107 | The corrected reader never returns more edges than the capacity. On a read that ends at end of file within capacity it returns exactly the parsed edges in order. After a hard error or a capacity overrun it returns none. |
| LabelTable.InitLabels | sccs32s.cpp:192-199 | After initialisation the table's keys are exactly the endpoints of the read edges, and every node is its own label. |
| LabelTable.ApplyLowers | sccs32s.cpp:204 | Relabeling with descending merges keeps the table's keys and never raises a label. The nodes it changes are exactly those whose label is a merge source. |
| LabelTable.PopulatedMovesSome | sccs32s.cpp:257-260 | When every merge source labels some node and there is at least one merge, the relabel rewrites at least one node, so the count `k` is positive. |
| LabelTable.ApplyKeepsSameLabel | sccs32s.cpp:212-214 | An edge whose endpoints share a label still has endpoints sharing a label after any relabeling, so a removed edge would never propose a merge again. |
| EdgeScan.SwapRemove | sccs32s.cpp:215-219 | Removing slot `i` copies the last edge into it and shortens the store by one. Earlier slots and the slots after `i` are unchanged. The store loses exactly one copy of the removed edge and nothing else. |
| EdgeScan.PruneAt | sccs32s.cpp:212-220 | Swap-removes at slot `i` while the edge there has equal endpoint labels, re-examining each moved-in edge. Slots before `i` are untouched. The result is a sub-multiset that lost only same-label edges: every copy of a cross-label edge stays. If slot `i` survives, it holds a cross-label edge. |
| EdgeScan.RecordMerge | sccs32s.cpp:228-231 | Recording `hi -> lo` adds `hi` as a key if absent; otherwise it keeps the smaller of the old and new targets. Other entries are unchanged. |
| EdgeScan.RecordsMergesSnoc | sccs32s.cpp:222-231 | Recording one more cross-label edge keeps the merge map equal to "larger label -> minimum smaller label" over the scanned edges. |
| EdgeScan.ScanEdges | sccs32s.cpp:208-232 | The surviving store is a sub-multiset of the input. Every dropped edge has equal endpoint labels, every copy of a cross-label edge survives, and every surviving edge has distinct ones. Each merge source is the larger label of some surviving edge, and its target is the minimum smaller label over those edges, so targets are strictly below sources. |
| MergeChains.Root | sccs32s.cpp:241-247 | Following a descending merge map from `x` ends at a label that is not a source and is at most `x`, and strictly below `x` when `x` is a source. |
| MergeChains.ShortcutKeepsRoots | sccs32s.cpp:248-251 | Pointing a source straight at the end of its chain keeps the map descending and leaves the end of every chain unchanged. |
| MergeChains.ResolveChains | sccs32s.cpp:237-253 | Chain resolution keeps the set of merge sources and keeps targets strictly below sources. Afterwards no target is a source, and each source points at the end of its original chain. |
| MergeChains.RootWithin | sccs32s.cpp:247 | The end of a chain is its start or one of the map's targets. |
| Relabel.RelabelScan | sccs32s.cpp:257-263 | The full-table relabel rewrites exactly the nodes whose label is a merge source to that source's target and leaves the rest alone, which is the reference relabeling `Apply`. It never raises a label, and `k` equals the number of nodes rewritten. When asked, the index it builds holds `(l, v)` exactly when the new table maps `v` to `l`. |
| Relabel.MoveOneEntry | sccs32s.cpp:288-292 | Re-filing one index entry under the target label, and rewriting the node's table entry, keeps the table and index consistent. It removes exactly that entry from the source's members. |
| Relabel.NoMembersNoCarriers | sccs32s.cpp:281-286 | Through a consistent index, a label has no index entries exactly when no node carries it. |
| Relabel.MoveMembers | sccs32s.cpp:287-295 | Moving the members of `src` sends every node labeled `src` to `tgt`, leaves every other node unchanged, keeps the index consistent, and counts exactly the nodes moved. |
| Relabel.RelabelIndexed | sccs32s.cpp:281-297 | When every merge source labels some node, the indexed relabel produces the reference relabeling `Apply`, keeps the index consistent, and counts exactly the nodes rewritten. When some source labels no node, the count is zero. |
| DriverProofs.EdgeLabelsConnected | sccs32s.cpp:209-210 | In a sound table, the labels at the two ends of an original edge are connected nodes. |
| DriverProofs.MergesJoinConnectedLabels | sccs32s.cpp:222-231 | Every recorded merge joins two labels in use that are connected in the original graph. |
| DriverProofs.RootConnected | sccs32s.cpp:241-247 | When every merge joins connected labels, each label is connected to the end of its chain. |
| DriverProofs.ApplyIsRoot | sccs32s.cpp:237-260 | Applying the resolved merges sends each node to the end of its label's chain in the unresolved merge map. |
| DriverProofs.RelabelKeepsSound | sccs32s.cpp:204 | A relabeling round keeps every label a node that is reachable from its owner and no larger than it. |
| DriverProofs.RelabelShrinksLabels | sccs32s.cpp:204 | A round with at least one merge strictly shrinks the set of labels in use. |
| DriverProofs.RelabelKeepsPruned | sccs32s.cpp:212-214 | Original edges that were removed from the store keep equal endpoint labels after relabeling. |
| DriverProofs.FirstMergeNeedsCrossEdge | sccs32s.cpp:192-199 | While every node is its own label, a recorded merge needs an edge between two distinct nodes. |
| Driver.Round | sccs32s.cpp:207-304 | One round keeps the loop invariant. When no merge is proposed, the table is unchanged and every original edge lies within one label. Otherwise at least one node is rewritten and the set of labels in use strictly shrinks. |
| Driver.MergeRound | sccs32s.cpp:236-297 | Resolving and applying a non-empty merge map keeps the invariant, rewrites at least one node and strictly shrinks the labels in use. |
| Driver.ApplyMerges | sccs32s.cpp:255-296 | Both relabel modes yield the reference relabeling, count exactly the rewritten nodes and keep a non-empty index consistent. An index exists only when it was asked for. |
| Driver.RoundEffects | sccs32s.cpp:255-263 | The relabeling that closes a round with merges keeps the invariant, shrinks the labels in use and has at least one node to rewrite. |
| Driver.InitialInvariant | sccs32s.cpp:191-199 | The initial table satisfies the loop invariant, with or without a reverse index to come. |
| Driver.InitialLabelCount | sccs32s.cpp:191-199 | The initial table has as many labels in use as there are nodes, which bounds the number of rounds. |
| Driver.Run | sccs32s.cpp:204-309 | The loop terminates and the inconsistency flag is never raised. It yields the components labeling: equal labels exactly for connected nodes, each the smallest reachable id. The round count is zero exactly when no edge joins two distinct nodes. For a non-empty edge list it is below the number of nodes. |
| Driver.Sccs | sccs32s.cpp:131-313 | The corrected program reports a missing buffer size when the capacity is zero. It reports no edges on a failed, empty or over-capacity read. Otherwise it outputs the components labeling of the parsed edges. |
| Driver.SccsAsWritten | sccs32s.cpp:131-313 | A read that writes more pairs than the capacity is reported as `Overrun`, whether it ends at end of file or on a hard error. Otherwise the program as written reports no edges on a failed or empty read. Within the capacity, it reports a processing error when no edge joins two distinct nodes and otherwise outputs the components labeling of the parsed edges. Past the capacity the two arrays overlap and the run is not followed. |
| Driver.OverrunLosesNodeAsWritten | sccs32s.cpp:94-100 | With capacity 1 and the pairs (1, 2) and (3, 4), the pairs the overlapping arrays read back, (1, 3) and (3, 4), join distinct nodes, and node 2 of the input appears in neither of them. |
| Driver.SelfLoopReportedAsError | sccs32s.cpp:297-309 | The input consisting of the single self-loop (7, 7) is complete and has a valid components labeling (7 labeled 7), yet it has no edge between distinct nodes, so the program as written reports an error. |
| Graph.FixedPointIsComponentLabeling | sccs32s.cpp:2 | A table whose labels are reachable nodes no larger than their owners, with no edge crossing two labels, is the connected-components labeling. |
| Graph.ComponentLabelingUnique | sccs32s.cpp:2-3 | The components labeling of an edge list is unique. |
| Graph.SameEdgeSetSameLabeling | sccs32s.cpp:12-14 | Duplicated or reordered edges do not change the components labeling. |
| Compare.ReadSccsSpec | sccs_compare.cpp:41-64 | Reading a labeling fails exactly when a line before the end of file is not a valid pair. Otherwise it returns the pairs in input order, followed by the end of file or the end of input. |
| Compare.ReadRender | sccs_compare.cpp:52-56 | Reading back a labeling written one pair per line gives the labeling. |
| Compare.Insert | sccs_compare.cpp:100-102 | Inserting into a sorted list keeps it sorted and adds exactly the new entry. |
| Compare.SortBy | sccs_compare.cpp:100-102 | Sorting yields a list ordered by the chosen key that is a permutation of the input. |
| Compare.LowerBound | sccs_compare.cpp:112-113 | The binary search returns the first position whose node is not below the query. Everything before it is below the query and nothing from it on is. |
| Compare.FindSpec | sccs_compare.cpp:112-117 | The lookup reports "not found" exactly when no entry has the node. Otherwise it yields the first entry with that node. |
| Compare.Sentinel | sccs_compare.cpp:104 | The initial remembered label, one more with 32-bit wrap-around, always differs from the first label, so the first entry opens a group. |
| Compare.AgreeUpToStep | sccs_compare.cpp:118-129 | In a list sorted by label, an entry with a new label keeps the scanned prefix consistent. An entry with the previous label keeps it consistent exactly when it agrees with its group's first member. |
| Compare.ScanMismatch | sccs_compare.cpp:126-129 | A member whose first-labeling label differs from its group's makes the scanned prefix inconsistent. |
| Compare.CheckLabelings | sccs_compare.cpp:104-130 | The scan ends "consistent" exactly when every node of the second labeling is found in the first, and same-label nodes of the second get the same label in the first. It stops at the first missing node, or at the first member that splits a group, with the prefix before it consistent. |
| Compare.CheckLabelingsAsWritten | sccs_compare.cpp:104 | The scan as written has no result (an out-of-bounds read) exactly when the second labeling is empty. Otherwise it agrees with the corrected scan. |
| Compare.EmptySecondLabeling | sccs_compare.cpp:52-63 | An empty labeling file is read successfully as an empty labeling, and an empty second labeling refines every first labeling. |
| Compare.ConverseNotChecked | sccs_compare.cpp:119-122 | The check is one-directional: `{1:1, 2:1}` passes against `{1:1, 2:2}`, and the check with the roles swapped fails. |
| Compare.FindUnique | sccs_compare.cpp:112-117 | When the first labeling lists each node once, looking a node up in any sorted copy returns exactly that node's label, or nothing when it is absent. |
| Compare.RefinesIndependentOfOrder | sccs_compare.cpp:99-102 | When the first labeling lists each node once, the verdict is the same for every sorted order of both lists. It is the order-independent refinement of the labelings as read. |
| Compare.CompareLabelings | sccs_compare.cpp:94-132 | The cross-check with the corrected scan fails to read exactly when either labeling fails to read. Otherwise its verdict is "consistent" exactly when the sorted second labeling refines the sorted first one. When the first labeling has no duplicate nodes, that means the labelings as read. |

## Left out

- Memory mapping, the optional temporary file and their cleanup are operating-system plumbing. The shared layout of the two edge arrays is modelled for the read only, by `GraphInput.Memory` and `GraphInput.Aliased`. While at most `cap` pairs are written the pair writes never overlap, and the rounds work on a sequence of edges.
- Driver.SccsAsWritten: past the capacity the two arrays overlap for the whole run, so each swap-remove also rewrites another edge, and writes beyond the `2 * cap`-word block may fault. Only the read is modelled (`GraphInput.Memory`, `GraphInput.Aliased`); the rest of such a run is reported as `Overrun`, not followed, even when the read then ends on a hard error.
- Driver.SccsAsWritten: after exactly `cap` pairs, an out-of-range line is still read into slot `cap`, which is the second array's slot 0. The line reader is not part of this model, and the model assumes it writes nothing on a line it skips. If it stores the first field before rejecting the second, that slot is overwritten and the within-capacity results do not hold for such an input.
- The text parser of the line reader is not part of this model. Lines are abstract results: pair, overflow, other error, end of file.
- Command-line parsing, timestamps, progress messages and the `fprintf` output are I/O. The results are returned as datatypes: labels or a failure reason, and a read failure or a verdict.
- The `ch32` hash affects only bucket placement. Map iteration order is an arbitrary choice instead.
- The commented-out C++17 `extract` variant of the indexed relabel is dead code.
- Process exit codes are not modelled. `sccs_compare` exits 0 whether or not a mismatch was found, so the model returns an explicit verdict instead.
- Driver.Run: the round counter is an unbounded integer rather than a 32-bit `unsigned int`. This is harmless because, for a non-empty edge list, it is proved to stay below the number of distinct node ids, which is at most 2^32.
- Driver.Run: the 64-bit edge count and index in the source are unbounded integers. The store is a sequence, so nothing can overflow.
- Compare.SortBy: `std::sort` is not stable, so it may order entries with equal keys differently. `SortBy` is one sorted permutation. `RefinesIndependentOfOrder` shows that, when the first labeling lists each node once, any other sorted permutation gives the same verdict.
- Compare.CompareLabelings: which input file each labeling comes from, stdin or a named file, belongs to the command line. Each labeling is a sequence of lines.

## Findings

| source | as written | input that shows it | evidently intended | confidence | as-written member | corrected member |
|---|---|---|---|---|---|---|
| sccs32s.cpp:92-107 | `read_graph` takes the capacity `N` but never compares the write index with it. | Capacity 1 with the lines `1 2`, `3 4`, then end of file. The second array starts right after the first, so the `3` overwrites the second array's slot 0, and only the `4` lands past the 2N-word buffer. The arrays then hold (1, 3) and (3, 4), so node 2 is lost. | Stop, or fail, once the capacity is reached. | not executed | GraphInput.ReadGraphAsWritten, GraphInput.CapacityIgnoredAsWritten, GraphInput.OverrunAliasesAsWritten, Driver.OverrunLosesNodeAsWritten | GraphInput.ReadGraph |
| sccs32s.cpp:297-309 | The error flag is `j == 0`, and `j` also stays 0 when the very first scan finds no merge. | The single edge `7 7` (a self-loop): every edge is pruned in the first scan, so the output is "Error encountered during processing!" instead of the labeling `7 -> 7`. | Report an error only when the indexed relabel finds an inconsistency, and otherwise output the labels. | not executed | Driver.SccsAsWritten, Driver.SelfLoopReportedAsError | Driver.Sccs |
| sccs_compare.cpp:104 | `sccs2[0]` is read before anything checks that the second labeling is non-empty. | An empty second file: it is read successfully as an empty vector, and then `sccs2[0]` is read out of bounds. | An empty second labeling has nothing to check, so the result is consistent. | not executed | Compare.CheckLabelingsAsWritten, Compare.EmptySecondLabeling | Compare.CheckLabelings |
