# Package editor core, modelled in Dafny

This project models the core of the Legendary Explorer package editor window
(`PackageEditorWindow.xaml.cs`). It covers the logic behind the window's
commands, without the UI:

- **Tree build.** The entry tree is built from a package's export and import
  tables when a file is loaded.
- **Incremental update.** When the package reports added entries or changed
  headers, the tree is updated in place (`handleUpdate`).
- **Reindexing.** Exports are reindexed by name. Duplicate instanced paths can
  be checked for and reindexed. The instance numbers of a subtree can be set to
  zero.
- **Names table.** Names can be added, edited and searched-and-replaced.
- **Selection and navigation.** This covers the selection, going to an entry by
  number, the class and text searches with their wrap-around loop, the tab
  keys, and the back/forward history of selected entries.
- **Trash guard.** Trashing a subtree is refused for an entry already under the
  trash package.
- **Drag-and-drop porting.** The model decides what a drop between two trees
  does.

A UIndex names an export when it is positive (export slot `u - 1`), an import
when it is negative (import slot `-u - 1`) and the package root when it is 0.

The modules are:

- `Text`: ordinal string helpers. These are the prefix and substring tests,
  `string.Replace`, ASCII lower-casing and decimal rendering.
- `Entries`: the entry tables and the UIndex encoding, with instanced names and
  dot-joined paths.
- `TreeBuild`: `InitializeTreeViewBackground`, computed over slot lists.
- `EntryTrees`: the live tree. It is a class whose node lists (`uIndexOf`,
  `parentOf`, `sublinks`) the update methods change in place.
- `Indexing`: what reindexing by name and the duplicate tools compute, stated
  as functions of the export table, with lemmas about them.
- `PackageEdits`: the package as a class whose name and entry tables the
  editing commands change in place.
- `Navigation`: the editor's selection state as a class, with the search
  loops, the tab keys and the history stacks.
- `Porting`: the trash guard and the drop decision.

Dialog answers become parameters. These are the confirmation boxes, the
prompts, the merge dialog and the rename question. The package library's
operations are not part of this model and become inputs:

- `FlattenTree` (a subtree's UIndices, or the tree's nodes in order).
- `GetNextIndexedName` (the renamed object name).
- `FindEntry` (a set of the target package's instanced full paths).
- `ImportAndRelinkEntries` and `TrashEntries` (the drop and the trash produce
  the request they would hand to these).

## Model

| member | source | states |
|---|---|---|
| Text.ReplaceAllWithoutOccurrence | LegendaryExplorer/LegendaryExplorer/Tools/PackageEditor/PackageEditorWindow.xaml.cs:1676-1684 | `Replace` leaves a name that does not contain the search text unchanged, so skipping such names equals rewriting every name |
| Text.ReplaceAllLength | LegendaryExplorer/LegendaryExplorer/Tools/PackageEditor/PackageEditorWindow.xaml.cs:1679-1683 | each rewritten occurrence changes the length by the difference of the two texts' lengths |
| Text.ContainsMeansReplaced | LegendaryExplorer/LegendaryExplorer/Tools/PackageEditor/PackageEditorWindow.xaml.cs:1679-1683 | a name that contains the search text has at least one occurrence rewritten |
| Text.ContainingNameIsRewritten | LegendaryExplorer/LegendaryExplorer/Tools/PackageEditor/PackageEditorWindow.xaml.cs:1679-1683 | a containing name really changes when the replacement has a different length |
| Text.LowerChar | LegendaryExplorer/LegendaryExplorer/Tools/PackageEditor/PackageEditorWindow.xaml.cs:3420 | a capital ASCII letter maps to the small letter 32 code points above it, every other character is kept, and no result is a capital letter |
| Text.LowerCharAlike | LegendaryExplorer/LegendaryExplorer/Tools/PackageEditor/PackageEditorWindow.xaml.cs:3420 | two characters lower-case alike exactly when they are the same letter up to ASCII case |
| Text.LowerIdempotent | LegendaryExplorer/LegendaryExplorer/Tools/PackageEditor/PackageEditorWindow.xaml.cs:3420 | lower-casing an already lower-cased text changes nothing |
| Text.LowerAlike | LegendaryExplorer/LegendaryExplorer/Tools/PackageEditor/PackageEditorWindow.xaml.cs:3420 | two texts lower-case alike exactly when they have the same length and agree letter by letter up to ASCII case |
| Text.NatToString | LegendaryExplorer/LegendaryExplorer/Tools/PackageEditor/PackageEditorWindow.xaml.cs:1729 | an instance number renders as a non-empty string of decimal digits |
| Text.NatToStringInjective | LegendaryExplorer/LegendaryExplorer/Tools/PackageEditor/PackageEditorWindow.xaml.cs:1729 | different numbers render differently |
| Entries.DecodeUIndex | LegendaryExplorer/LegendaryExplorer/Tools/PackageEditor/PackageEditorWindow.xaml.cs:2561-2578 | 0 decodes to the root and exactly the positive UIndices decode to exports |
| Entries.EncodeRef | LegendaryExplorer/LegendaryExplorer/Tools/PackageEditor/PackageEditorWindow.xaml.cs:2565-2573 | encoding a root, export slot or import slot is undone by decoding |
| Entries.EncodeDecodeRoundTrip | LegendaryExplorer/LegendaryExplorer/Tools/PackageEditor/PackageEditorWindow.xaml.cs:2565-2573 | decoding then encoding gives back every integer |
| Entries.DecodedSlotIsEntry | LegendaryExplorer/LegendaryExplorer/Tools/PackageEditor/PackageEditorWindow.xaml.cs:2580-2590 | a UIndex names an entry exactly when it decodes to a slot inside its table |
| Entries.InstancedName | LegendaryExplorer/LegendaryExplorer/Tools/PackageEditor/PackageEditorWindow.xaml.cs:1729 | a name with a positive instance number is the name followed by `_` and a suffix; otherwise it is the bare name |
| Entries.InstancedNameInjective | LegendaryExplorer/LegendaryExplorer/Tools/PackageEditor/PackageEditorWindow.xaml.cs:1321-1324 | two positive instance numbers give the same instanced name only when they are equal |
| Entries.PathStartsWithTopmostName | LegendaryExplorer/LegendaryExplorer/Tools/PackageEditor/PackageEditorWindow.xaml.cs:1227 | an entry's path starts with its topmost ancestor's name |
| Entries.TopmostAncestor | LegendaryExplorer/LegendaryExplorer/Tools/PackageEditor/PackageEditorWindow.xaml.cs:1227 | following parent links ends at an existing entry |
| TreeBuild.TreeSlotNamesLinkedEntry | LegendaryExplorer/LegendaryExplorer/Tools/PackageEditor/PackageEditorWindow.xaml.cs:2425-2431 | a link naming an entry or the root is looked up at that entry's own slot |
| TreeBuild.ExportLinkPastTableLandsOnImport | LegendaryExplorer/LegendaryExplorer/Tools/PackageEditor/PackageEditorWindow.xaml.cs:2425-2431 | a positive link past the export table is not rejected: it lands on an import whose UIndex is not the link |
| TreeBuild.ChildrenBelowExactlyOnce | LegendaryExplorer/LegendaryExplorer/Tools/PackageEditor/PackageEditorWindow.xaml.cs:2420-2441 | each slot is listed under its own parent exactly once and under no other node |
| TreeBuild.ChildrenBelowAscending | LegendaryExplorer/LegendaryExplorer/Tools/PackageEditor/PackageEditorWindow.xaml.cs:2420-2441 | children lists are strictly ascending (table order) |
| TreeBuild.ChildListsWellLinked | LegendaryExplorer/LegendaryExplorer/Tools/PackageEditor/PackageEditorWindow.xaml.cs:2420-2441 | children lists built from in-range parent slots agree with the parent slots |
| TreeBuild.ParentSlots | LegendaryExplorer/LegendaryExplorer/Tools/PackageEditor/PackageEditorWindow.xaml.cs:2425-2431 | one parent slot per node, the root included |
| TreeBuild.BuildTree | LegendaryExplorer/LegendaryExplorer/Tools/PackageEditor/PackageEditorWindow.xaml.cs:2400-2446 | the build succeeds exactly when every link's slot is in the list, and otherwise fails at the first bad slot. Nodes are root, exports, imports; every entry hangs under its link's slot; children are in slot order and agree with the parents; only the root stays on the top level |
| EntryTrees.RemoveFirst | LegendaryExplorer/LegendaryExplorer/Tools/PackageEditor/PackageEditorWindow.xaml.cs:2753 | `Sublinks.Remove` removes exactly one copy of a present child and leaves the list alone otherwise |
| EntryTrees.NotYetInTree | LegendaryExplorer/LegendaryExplorer/Tools/PackageEditor/PackageEditorWindow.xaml.cs:2670-2673 | the added entries kept are exactly those whose UIndex no node carries |
| EntryTrees.AppendChildKeepsWellLinked | LegendaryExplorer/LegendaryExplorer/Tools/PackageEditor/PackageEditorWindow.xaml.cs:2688-2694 | attaching a new node under an existing parent keeps parents and children in agreement |
| EntryTrees.MoveChildKeepsWellLinked | LegendaryExplorer/LegendaryExplorer/Tools/PackageEditor/PackageEditorWindow.xaml.cs:2753-2755 | removing a node from its parent's children and appending it to another's keeps them in agreement |
| EntryTrees.UnchangedNodesKeepParents | LegendaryExplorer/LegendaryExplorer/Tools/PackageEditor/PackageEditorWindow.xaml.cs:2737-2760 | the header pass leaves old nodes with unchanged headers under their old parents, and new ones under their links |
| EntryTrees.ChangedOnlyNodesFollowLinks | LegendaryExplorer/LegendaryExplorer/Tools/PackageEditor/PackageEditorWindow.xaml.cs:2743-2756 | a changed node, the only one carrying its UIndex, ends under its new link whenever a node carries that link |
| EntryTrees.EntryTree.BuildUIndexMap | LegendaryExplorer/LegendaryExplorer/Tools/PackageEditor/PackageEditorWindow.xaml.cs:2654-2661 | every node's UIndex is a key and every key maps to a node carrying it, the last such node |
| EntryTrees.EntryTree.AttachNode | LegendaryExplorer/LegendaryExplorer/Tools/PackageEditor/PackageEditorWindow.xaml.cs:2688-2694 | a new node is appended under the parent and the tree stays well linked |
| EntryTrees.EntryTree.AttachPass | LegendaryExplorer/LegendaryExplorer/Tools/PackageEditor/PackageEditorWindow.xaml.cs:2684-2699 | entries whose link the dictionary holds are attached under it in order; the rest are kept; together they are a permutation of the input |
| EntryTrees.EntryTree.EntriesNotInTree | LegendaryExplorer/LegendaryExplorer/Tools/PackageEditor/PackageEditorWindow.xaml.cs:2670-2675 | the entries to add are the added entries without a node, in order |
| EntryTrees.EntryTree.AttachRounds | LegendaryExplorer/LegendaryExplorer/Tools/PackageEditor/PackageEditorWindow.xaml.cs:2680-2709 | passes repeat until nothing is pending or a pass attaches nothing. Attached entries and orphans split the input; no orphan's link is in the dictionary; the passes are at most the input's length |
| EntryTrees.EntryTree.AttachAddedEntries | LegendaryExplorer/LegendaryExplorer/Tools/PackageEditor/PackageEditorWindow.xaml.cs:2664-2709 | the same, over the added entries not yet in the tree |
| EntryTrees.EntryTree.ReparentChangedHeaders | LegendaryExplorer/LegendaryExplorer/Tools/PackageEditor/PackageEditorWindow.xaml.cs:2737-2763 | each node gets its reparent target (unchanged unless its header changed and the dictionary holds its new link), the tree stays well linked, and a moved node's parent carries its link |
| EntryTrees.EntryTree.ReparentNode | LegendaryExplorer/LegendaryExplorer/Tools/PackageEditor/PackageEditorWindow.xaml.cs:2743-2756 | one node moves to its reparent target and the tree stays well linked |
| EntryTrees.EntryTree.AttachForUpdate | LegendaryExplorer/LegendaryExplorer/Tools/PackageEditor/PackageEditorWindow.xaml.cs:2652-2709 | after attaching, every node's UIndex is in the dictionary and no node carries an orphan's link |
| EntryTrees.EntryTree.ReparentForUpdate | LegendaryExplorer/LegendaryExplorer/Tools/PackageEditor/PackageEditorWindow.xaml.cs:2737-2763 | after the header pass, unchanged nodes keep their places and changed nodes follow their links |
| EntryTrees.EntryTree.Rebuild | LegendaryExplorer/LegendaryExplorer/Tools/PackageEditor/PackageEditorWindow.xaml.cs:2633-2640 | on a batch with a removal the tree becomes the one `BuildTree` lays out over the new tables: slot UIndices, parent slots and child lists, still well linked; a build that fails on a link outside the tables leaves the tree as it was |
| EntryTrees.EntryTree.HandleUpdate | LegendaryExplorer/LegendaryExplorer/Tools/PackageEditor/PackageEditorWindow.xaml.cs:2647-2765 | the tree stays well linked and gains one node per attached entry, in order. Attached entries and orphans split the added entries not yet in the tree, and no node carries an orphan's link. Unchanged nodes keep their parents, new nodes hang under their links, and changed only-nodes end under their new link |
| Indexing.TargetsBelow | LegendaryExplorer/LegendaryExplorer/Tools/PackageEditor/PackageEditorWindow.xaml.cs:1316-1328 | the count of targets before a position is at most that position |
| Indexing.ReindexNumbersTargetsOneToN | LegendaryExplorer/LegendaryExplorer/Tools/PackageEditor/PackageEditorWindow.xaml.cs:1316-1328 | the reindex gives the n targets exactly the numbers 1..n, increasing in table order |
| Indexing.ReindexedNamesDistinct | LegendaryExplorer/LegendaryExplorer/Tools/PackageEditor/PackageEditorWindow.xaml.cs:1290-1336 | after reindexing, two different targets have different instanced names |
| Indexing.KeysBelowMeans | LegendaryExplorer/LegendaryExplorer/Tools/PackageEditor/PackageEditorWindow.xaml.cs:1727-1745 | a key has been seen exactly when some earlier counted export carries it |
| Indexing.DistinctPlusDuplicates | LegendaryExplorer/LegendaryExplorer/Tools/PackageEditor/PackageEditorWindow.xaml.cs:1727-1745 | distinct keys plus reported duplicates equal the exports outside the trash |
| Indexing.PositionsOf | LegendaryExplorer/LegendaryExplorer/Tools/PackageEditor/PackageEditorWindow.xaml.cs:1784-1796 | a group lists only positions below the bound |
| Indexing.FirstOccurrences | LegendaryExplorer/LegendaryExplorer/Tools/PackageEditor/PackageEditorWindow.xaml.cs:1784-1796 | first occurrences lie below the bound |
| Indexing.PositionsStartAtFirstOccurrence | LegendaryExplorer/LegendaryExplorer/Tools/PackageEditor/PackageEditorWindow.xaml.cs:1784-1796 | a group is non-empty exactly when its key was seen, and starts at the key's first occurrence |
| Indexing.PositionsBeyondFirst | LegendaryExplorer/LegendaryExplorer/Tools/PackageEditor/PackageEditorWindow.xaml.cs:1799-1800 | a group has more than one member exactly when a later export has the same key |
| Indexing.FirstOccurrencesMeans | LegendaryExplorer/LegendaryExplorer/Tools/PackageEditor/PackageEditorWindow.xaml.cs:1784-1796 | the keys in insertion order are ascending first occurrences, all of them and nothing else |
| Indexing.GroupOfFirstOccurrence | LegendaryExplorer/LegendaryExplorer/Tools/PackageEditor/PackageEditorWindow.xaml.cs:1799-1800 | a group's `First()` is its first occurrence, and `Count > 1` means it opens a duplicate group |
| Indexing.GroupHeads | LegendaryExplorer/LegendaryExplorer/Tools/PackageEditor/PackageEditorWindow.xaml.cs:1799-1800 | the selected positions are exactly the group heads among the first occurrences |
| Indexing.GroupHeadsOfTable | LegendaryExplorer/LegendaryExplorer/Tools/PackageEditor/PackageEditorWindow.xaml.cs:1799-1803 | the heads reindexed are exactly the table's duplicate-group heads, ascending |
| PackageEdits.FirstIndexOf | LegendaryExplorer/LegendaryExplorer/Tools/PackageEditor/PackageEditorWindow.xaml.cs:1598 | the index found is the first occurrence of the name |
| PackageEdits.DuplicatesOf | LegendaryExplorer/LegendaryExplorer/Tools/PackageEditor/PackageEditorWindow.xaml.cs:1725-1745 | reports exactly the exports, outside the trash, whose key an earlier one has, ascending; their number is the counted exports minus the distinct keys |
| PackageEdits.GroupByKey | LegendaryExplorer/LegendaryExplorer/Tools/PackageEditor/PackageEditorWindow.xaml.cs:1783-1796 | the dictionary holds every seen key with its positions, and the keys in the order first met |
| PackageEdits.GroupHeadsOf | LegendaryExplorer/LegendaryExplorer/Tools/PackageEditor/PackageEditorWindow.xaml.cs:1783-1803 | the first members of the groups with more than one member are exactly the duplicate-group heads, ascending |
| PackageEdits.Package.FindNameOrAdd | LegendaryExplorer/LegendaryExplorer/Tools/PackageEditor/PackageEditorWindow.xaml.cs:1598 | an existing name's first index, or the name appended at the end; the entry tables do not change |
| PackageEdits.Package.ReplaceName | LegendaryExplorer/LegendaryExplorer/Tools/PackageEditor/PackageEditorWindow.xaml.cs:1651 | exactly the name at the index is replaced |
| PackageEdits.Package.AddName | LegendaryExplorer/LegendaryExplorer/Tools/PackageEditor/PackageEditorWindow.xaml.cs:1592-1616 | an empty answer does nothing; otherwise the name is found or appended. "Added" is reported exactly when the name was new or already the last name |
| PackageEdits.Package.AddNameIntended | LegendaryExplorer/LegendaryExplorer/Tools/PackageEditor/PackageEditorWindow.xaml.cs:1592-1616 | the same, but "added" is reported exactly when the name was new |
| PackageEdits.AddNameMisreportsExistingLastName | LegendaryExplorer/LegendaryExplorer/Tools/PackageEditor/PackageEditorWindow.xaml.cs:1604-1615 | adding "A" to the table ["A"] leaves it ["A"] and reports it added |
| PackageEdits.AddNameIntendedReportsExistingLastName | LegendaryExplorer/LegendaryExplorer/Tools/PackageEditor/PackageEditorWindow.xaml.cs:1604-1615 | the intended version reports it as existing |
| PackageEdits.Package.EditName | LegendaryExplorer/LegendaryExplorer/Tools/PackageEditor/PackageEditorWindow.xaml.cs:1641-1654 | with a selected name and a non-empty answer that name is replaced; every other name stays |
| PackageEdits.Package.SearchReplaceNames | LegendaryExplorer/LegendaryExplorer/Tools/PackageEditor/PackageEditorWindow.xaml.cs:1656-1690 | an empty search, an empty replacement or a cancel changes nothing; otherwise every name becomes its replacement, pointwise |
| PackageEdits.Package.ReindexObjectsByName | LegendaryExplorer/LegendaryExplorer/Tools/PackageEditor/PackageEditorWindow.xaml.cs:1290-1336 | every non-class export with the same name and parent path gets the next number from 1 in table order; all else is unchanged, so the tables become `ReindexByName` of the old ones |
| PackageEdits.Package.ReindexObjectByName | LegendaryExplorer/LegendaryExplorer/Tools/PackageEditor/PackageEditorWindow.xaml.cs:1277-1288 | no export selected or a trashed export leave the package unchanged; otherwise the name is reindexed once confirmed, giving `ReindexByName` of the old tables |
| PackageEdits.Package.CheckForDuplicateIndexes | LegendaryExplorer/LegendaryExplorer/Tools/PackageEditor/PackageEditorWindow.xaml.cs:1718-1767 | the reported UIndices are exactly the duplicates outside the trash, ascending, and their count matches the distinct keys |
| PackageEdits.ReindexByName | LegendaryExplorer/LegendaryExplorer/Tools/PackageEditor/PackageEditorWindow.xaml.cs:1290-1336 | reindexing by name from one export leaves the import table and the export count alone and changes nothing but instance numbers |
| PackageEdits.ReindexEach | LegendaryExplorer/LegendaryExplorer/Tools/PackageEditor/PackageEditorWindow.xaml.cs:1798-1802 | reindexing from several exports, one after the other, changes nothing but export instance numbers |
| PackageEdits.DuplicateHeads | LegendaryExplorer/LegendaryExplorer/Tools/PackageEditor/PackageEditorWindow.xaml.cs:1783-1802 | the exports reindexed from are exactly the first members of the duplicate groups, ascending and within the table |
| PackageEdits.Package.DuplicateGroupHeads | LegendaryExplorer/LegendaryExplorer/Tools/PackageEditor/PackageEditorWindow.xaml.cs:1783-1800 | the grouping walk returns exactly `DuplicateHeads` of the current tables |
| PackageEdits.Package.ReindexFromEach | LegendaryExplorer/LegendaryExplorer/Tools/PackageEditor/PackageEditorWindow.xaml.cs:1798-1802 | reindexing by name from each head in turn leaves the tables as `ReindexEach` of the old ones, and the names alone |
| PackageEdits.Package.ReindexDuplicateIndexes | LegendaryExplorer/LegendaryExplorer/Tools/PackageEditor/PackageEditorWindow.xaml.cs:1769-1804 | once confirmed, the tables become those of reindexing by name from every duplicate-group head in ascending order; only instance numbers change, nothing changes unless confirmed, and nothing changes without a duplicate group |
| PackageEdits.Package.SetIndicesInTreeToZero | LegendaryExplorer/LegendaryExplorer/Tools/PackageEditor/PackageEditorWindow.xaml.cs:459-476 | with a tree entry selected and the warning confirmed, exactly the subtree's entries get number 0; nothing else changes |
| Navigation.Pushed | LegendaryExplorer/LegendaryExplorer/Tools/PackageEditor/PackageEditorWindow.xaml.cs:3727-3731 | pushing never brings the root into a stack that lacks it |
| Navigation.Visit | LegendaryExplorer/LegendaryExplorer/Tools/PackageEditor/PackageEditorWindow.xaml.cs:3263-3265 | positions visited within one round stay inside the list |
| Navigation.LoopFunc | LegendaryExplorer/LegendaryExplorer/Tools/PackageEditor/PackageEditorWindow.xaml.cs:3235-3254 | one step lands inside the list, even from just outside it, and is one step of the round |
| Navigation.VisitStep | LegendaryExplorer/LegendaryExplorer/Tools/PackageEditor/PackageEditorWindow.xaml.cs:3263-3265 | repeated `LoopFunc` steps walk the round order |
| Navigation.StepsTo | LegendaryExplorer/LegendaryExplorer/Tools/PackageEditor/PackageEditorWindow.xaml.cs:3263-3265 | every position is reached within one round |
| Navigation.CircularFind | LegendaryExplorer/LegendaryExplorer/Tools/PackageEditor/PackageEditorWindow.xaml.cs:3414-3428 | finds the first hit in round order after the start, and nothing only when there is no hit |
| Navigation.LinearFind | LegendaryExplorer/LegendaryExplorer/Tools/PackageEditor/PackageEditorWindow.xaml.cs:3290-3311 | finds the first hit at or after the start, and nothing only when there is none there |
| Navigation.TabRight | LegendaryExplorer/LegendaryExplorer/Tools/PackageEditor/PackageEditorWindow.xaml.cs:768-782 | the nearest usable tab to the right, or the selection unchanged exactly when there is none |
| Navigation.TabLeft | LegendaryExplorer/LegendaryExplorer/Tools/PackageEditor/PackageEditorWindow.xaml.cs:784-798 | the nearest usable tab to the left, or the selection unchanged exactly when there is none |
| Navigation.FirstNodeOf | LegendaryExplorer/LegendaryExplorer/Tools/PackageEditor/PackageEditorWindow.xaml.cs:2988-2991 | the first node with an entry of that UIndex, or none exactly when no node has one |
| Navigation.EditorNavigation.ResetHistory | LegendaryExplorer/LegendaryExplorer/Tools/PackageEditor/PackageEditorWindow.xaml.cs:2340-2341 | both stacks become empty; nothing else changes |
| Navigation.EditorNavigation.SetSelectedItem | LegendaryExplorer/LegendaryExplorer/Tools/PackageEditor/PackageEditorWindow.xaml.cs:114-133 | a changed, unsuppressed selection away from a non-root entry, outside back/forward, pushes that entry and clears the forward stack; otherwise the stacks are unchanged |
| Navigation.EditorNavigation.GoToNumber | LegendaryExplorer/LegendaryExplorer/Tools/PackageEditor/PackageEditorWindow.xaml.cs:2959-3035 | succeeds exactly when the number can be shown, and then the selection shows it. 0 is refused; while loading, or when the tree has no such node, the number is queued. The lists switch between exports and imports as needed |
| Navigation.EditorNavigation.GoToListEntry | LegendaryExplorer/LegendaryExplorer/Tools/PackageEditor/PackageEditorWindow.xaml.cs:3005-3027 | an existing entry is selected in its own list, switching list; a missing one changes nothing |
| Navigation.EditorNavigation.NavigateToPreviousEntry | LegendaryExplorer/LegendaryExplorer/Tools/PackageEditor/PackageEditorWindow.xaml.cs:3743-3759 | pops the back stack and pushes the current entry (not the root or the target) forward. It goes to the popped number as `GoToNumber` does, and leaves the flag cleared: when the number cannot be shown the selection, view and list row stay and the number may be queued; in the names view the number is taken as a name index |
| Navigation.EditorNavigation.NavigateToNextEntry | LegendaryExplorer/LegendaryExplorer/Tools/PackageEditor/PackageEditorWindow.xaml.cs:3723-3739 | pops the forward stack and pushes the current entry back. It goes to the popped number as `GoToNumber` does (selection, view, list row and queued number all stated), and the flag stays set |
| Navigation.EditorNavigation.NavigateToNextEntryIntended | LegendaryExplorer/LegendaryExplorer/Tools/PackageEditor/PackageEditorWindow.xaml.cs:3723-3739 | the same with the flag cleared afterwards |
| Navigation.EditorNavigation.TextHitsIn | LegendaryExplorer/LegendaryExplorer/Tools/PackageEditor/PackageEditorWindow.xaml.cs:3412-3498 | one flag per node of the tree or row of the list |
| Navigation.EditorNavigation.Search | LegendaryExplorer/LegendaryExplorer/Tools/PackageEditor/PackageEditorWindow.xaml.cs:3354-3498 | with non-empty text the cursor moves to the first match in round order past it, and stays without a match; empty text changes nothing; in the tree a move records the previous selection in the back history and clears the forward history, as a selection change does |
| Navigation.EditorNavigation.FindNextObjectByClass | LegendaryExplorer/LegendaryExplorer/Tools/PackageEditor/PackageEditorWindow.xaml.cs:3226-3316 | in the tree, the first node of the class in round order past the selection; in the lists, the first row of the class after the selection, without wrapping; in the tree a move records the previous selection in the back history and clears the forward history, as a selection change does |
| Navigation.ScenarioTree | LegendaryExplorer/LegendaryExplorer/Tools/PackageEditor/PackageEditorWindow.xaml.cs:114-133 | a tree with entries 1 and 2 at nodes 1 and 2 exists |
| Navigation.SelectOneThenTwo | LegendaryExplorer/LegendaryExplorer/Tools/PackageEditor/PackageEditorWindow.xaml.cs:114-133 | selecting 1 then 2 records 1 in the back history |
| Navigation.SelectTwoThenGoBack | LegendaryExplorer/LegendaryExplorer/Tools/PackageEditor/PackageEditorWindow.xaml.cs:3743-3759 | going back shows 1 with 2 ahead |
| Navigation.ForwardThenSelectLosesHistory | LegendaryExplorer/LegendaryExplorer/Tools/PackageEditor/PackageEditorWindow.xaml.cs:3735-3737 | after going forward to 2, selecting 1 does not record 2: the back stack stays [1] |
| Navigation.ForwardThenSelectKeepsHistory | LegendaryExplorer/LegendaryExplorer/Tools/PackageEditor/PackageEditorWindow.xaml.cs:3735-3737 | with the intended forward move, the back stack becomes [1, 2] |
| Porting.InsertDescending | LegendaryExplorer/LegendaryExplorer/Tools/PackageEditor/PackageEditorWindow.xaml.cs:1224 | inserting into a descending list keeps it descending and adds exactly the element |
| Porting.SortDescending | LegendaryExplorer/LegendaryExplorer/Tools/PackageEditor/PackageEditorWindow.xaml.cs:1224 | `OrderByDescending(UIndex)` is descending and a permutation |
| Porting.TrashDecision | LegendaryExplorer/LegendaryExplorer/Tools/PackageEditor/PackageEditorWindow.xaml.cs:1218-1251 | nothing without a selected entry, a refusal exactly for an entry under the trash package, and otherwise the subtree from the highest UIndex down with the selection moved to the parent (the root when it has none) |
| Porting.TrashedSubtreeIsRefused | LegendaryExplorer/LegendaryExplorer/Tools/PackageEditor/PackageEditorWindow.xaml.cs:1227-1231 | every entry whose topmost ancestor's name starts with the trash package name is refused |
| Porting.DropDecision | LegendaryExplorer/LegendaryExplorer/Tools/PackageEditor/PackageEditorWindow.xaml.cs:3115-3185 | the guards in order: root not draggable, no OT/LE mix, same node or package ignored, cancel, no package. A port is renamed exactly when the path is taken and the option does not replace in place, and only when the user accepts |
| Porting.DropRenamesOntoTakenPath | LegendaryExplorer/LegendaryExplorer/Tools/PackageEditor/PackageEditorWindow.xaml.cs:3154-3175 | onto a taken path, unless replacing in place, the drop ports only a copy renamed to the library's next indexed name, or nothing |
| Porting.DropPortsWhenGuardsPass | LegendaryExplorer/LegendaryExplorer/Tools/PackageEditor/PackageEditorWindow.xaml.cs:3115-3185 | with every guard passed and the user agreeing, the drop ports |

## Left out

- The UI is not modelled: WPF views, dialogs and message boxes, refreshing the views, `Preview()`, threading and the background tree build's completion handler. Dialog answers are parameters.
- The package library (ME3ExplorerCore) is not part of this model. It provides `FlattenTree`, `TrashEntries`, `ImportAndRelinkEntries`, `GetNextIndexedName` and `FindEntry`, which are inputs or requests here. Its rendering of an instanced name (the object name alone for an instance number of 0 or below, otherwise the name, `_` and the number less one), which `Entries.InstancedName` gives, is assumed library behaviour. Its paths are modelled as dot-joined names that follow parent links; the walk is bounded by the entry count, which a package with acyclic links never exceeds.
- `SortChildren` after an update is not modelled. The tree keeps children in attach order, so it describes the parents of nodes, not their order among siblings.
- Dictionary value order is not modelled: the header pass visits nodes in node order, while the source visits them in the order the dictionary returns its values. This only affects sibling order.
- The update list's `OrderBy(Index)` is not modelled: the added entries arrive in the order the caller gives them.
- The lists' additions after an update (adding rows to the export or import list views) are not modelled.
- `ToLower` is modelled for ASCII only: no culture-specific case mapping. Likewise the `StartsWith` tests against the trash package's name are culture-sensitive string comparisons, while `Indexing.IsTrashPath` compares ordinally, character by character.
- Integers are unbounded: 32-bit overflow of UIndices, counts and instance numbers is not modelled.
- The `Pcc == null` guards are not modelled; a package is always loaded.
- `AddName` selecting the index in the names view is not modelled.
- The `crossPCCObjectMap` clearing, `TryAddToPersistentLevel`, `RemoveFromLevelActors`, the relink report and `GoToNumber` on the ported entry are not modelled.
- Porting options other than `Cancel` and `ReplaceSingular` are only passed through to the import request.
- PackageEdits.Package.ReindexObjectsByName: tests which exports are targets against the tables as they were when the command started. The source reads them live, which gives the same targets when parent links are acyclic: a renumbered export only changes paths below itself.
- Navigation.EditorNavigation.Search: the names, imports and exports branches of the source are folded into one call over the current view's rows.
- EntryTrees.EntryTree.HandleUpdate: promises a changed node's move only when that node is the only one carrying its UIndex. With duplicate UIndices the dictionary holds the last such node, and the others stay where they are.
- EntryTrees.EntryTree.HandleUpdate: models only update batches without a removal. A batch holding any `ExportRemove` or `ImportRemove` (PackageEditorWindow.xaml.cs:2633-2640) throws the live tree away and rebuilds it over the new tables as `TreeBuild.BuildTree` does; `EntryTrees.EntryTree.Rebuild` models that branch. The test that picks one branch or the other from the batch is left to the caller, and the asynchronous completion of the rebuild is not modelled.
- EntryTrees.EntryTree.BuildUIndexMap: keys every node of the tree, while the source keys the nodes `FlattenTree` reaches from the root. The two agree unless parent links form a cycle that cuts nodes off from the root.
- PackageEdits.Package.FindNameOrAdd: returning the first index of a name already in the table is what the library's `FindNameOrAdd` is taken to do; that code is not part of this model.

## Findings

| source | as written | input that shows it | evidently intended | confidence | as-written member | corrected member |
|---|---|---|---|---|---|---|
| LegendaryExplorer/LegendaryExplorer/Tools/PackageEditor/PackageEditorWindow.xaml.cs:3735-3737 | `NavigateToNextEntry` sets `IsBackForwardsNavigationEvent` to true again after the move instead of clearing it, so later selections are never recorded in the back history | select entry 1, select entry 2, go back, go forward, select entry 1: the back stack stays [1] | clear the flag after the move, as `NavigateToPreviousEntry` does, so the back stack becomes [1, 2] | not executed | Navigation.ForwardThenSelectLosesHistory | Navigation.ForwardThenSelectKeepsHistory |
| LegendaryExplorer/LegendaryExplorer/Tools/PackageEditor/PackageEditorWindow.xaml.cs:1604-1615 | `AddName` decides "added" from whether the name's index is the table's last, so a name that already is the last entry is reported as added | names ["A"], add "A": the table stays ["A"] and the message says it has been added | report "already exists" whenever the name was in the table before | not executed | PackageEdits.AddNameMisreportsExistingLastName | PackageEdits.Package.AddNameIntended |
