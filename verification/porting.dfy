/**
 * The guards around moving entries out of the package and porting entries
 * into it: trashing the selected subtree, and the decision a drag-and-drop
 * between two trees takes before it calls the import engine.
 *
 * The engines themselves (pruning into the trash package, cloning and
 * relinking across packages, picking the next free indexed name) are not
 * modelled: the decisions produce the request they would be given.
 */
module Porting {
  import opened Text
  import opened Entries

  // ---------------------------------------------------------------------
  // Trashing
  // ---------------------------------------------------------------------

  predicate Descending(s: seq<int>)
  {
    forall i, j :: 0 <= i < j < |s| ==> s[i] >= s[j]
  }

  /** A descending sequence stays descending under a head no smaller than its first element. */
  lemma {:induction false} ConsDescending(h: int, s: seq<int>)
    requires Descending(s) && (s == [] || h >= s[0])
    ensures Descending([h] + s)
  {
    var r := [h] + s;
    forall i, j | 0 <= i < j < |r|
      ensures r[i] >= r[j]
    {
      assert r[j] == s[j - 1];
      if i > 0 {
        assert r[i] == s[i - 1];
      } else {
        assert s[0] >= s[j - 1];
      }
    }
  }

  /** The tail of a descending sequence is descending. */
  lemma DescendingTail(s: seq<int>)
    requires Descending(s) && s != []
    ensures Descending(s[1..])
  {
    forall i, j | 0 <= i < j < |s| - 1
      ensures s[1..][i] >= s[1..][j]
    {
      assert s[1..][i] == s[i + 1] && s[1..][j] == s[j + 1];
    }
  }

  /** Places `x` in the descending sequence `s` before the first element not above it. */
  function InsertDescending(x: int, s: seq<int>): (r: seq<int>)
    requires Descending(s)
    ensures Descending(r)
    ensures multiset(r) == multiset(s) + multiset{x}
    ensures |r| == |s| + 1 && r[0] == if s == [] || x >= s[0] then x else s[0]
  {
    if s == [] || x >= s[0] then
      ConsDescending(x, s);
      [x] + s
    else
      DescendingTail(s);
      var rest := InsertDescending(x, s[1..]);
      assert s == [s[0]] + s[1..];
      ConsDescending(s[0], rest);
      [s[0]] + rest
  }

  /** `OrderByDescending(x => x.UIndex)`: the UIndices from largest to smallest. */
  function SortDescending(s: seq<int>): (r: seq<int>)
    ensures Descending(r)
    ensures multiset(r) == multiset(s)
  {
    if s == [] then []
    else
      assert s == [s[0]] + s[1..];
      InsertDescending(s[0], SortDescending(s[1..]))
  }

  datatype TrashOutcome =
    | NoTreeEntrySelected
    | AlreadyTrashed
      /** Prune `items` in this order, after moving the selection to `goTo` (the root when that fails). */
    | Trash(items: seq<int>, goTo: int)

  /**
   * `TrashEntryAndChildren`: only with an entry selected in the tree; an
   * entry whose full path starts with the trash package's name is refused;
   * otherwise the subtree (`flattened`, its UIndices) is trashed from the
   * highest UIndex down and the selection moves to the entry's parent.
   */
  function TrashDecision(t: Tables, selected: Option<int>, flattened: seq<int>): (r: TrashOutcome)
    ensures r.NoTreeEntrySelected? <==> !(selected.Some? && t.Has(selected.value))
    ensures r.AlreadyTrashed? <==> selected.Some? && t.Has(selected.value) && IsTrashPath(FullPath(t, selected.value))
    ensures r.Trash? ==> Descending(r.items) && multiset(r.items) == multiset(flattened)
    ensures r.Trash? ==> t.Has(selected.value) && t.Has(r.goTo) == t.Has(t.Get(selected.value).idxLink)
                         && (t.Has(r.goTo) ==> r.goTo == t.Get(selected.value).idxLink)
                         && (!t.Has(r.goTo) ==> r.goTo == 0)
  {
    if selected.None? || !t.Has(selected.value) then NoTreeEntrySelected
    else
      var u := selected.value;
      if IsTrashPath(FullPath(t, u)) then AlreadyTrashed
      else
        var link := t.Get(u).idxLink;
        Trash(SortDescending(flattened), if t.Has(link) then link else 0)
  }

  /**
   * Every entry below a top-level entry whose name starts with the trash
   * package's name, and that entry itself, is refused: its full path starts
   * with that top-level name.
   */
  lemma TrashedSubtreeIsRefused(t: Tables, u: int, flattened: seq<int>)
    requires t.Has(u)
    requires StartsWith(t.Get(TopmostAncestor(t, u, t.Count())).objectName, TrashPackageName)
    ensures TrashDecision(t, Some(u), flattened) == AlreadyTrashed
  {
    var top := t.Get(TopmostAncestor(t, u, t.Count())).objectName;
    PathStartsWithTopmostName(t, u, false, t.Count());
    StartsWithTransitive(FullPath(t, u), top, TrashPackageName);
  }

  // ---------------------------------------------------------------------
  // Porting by drag and drop
  // ---------------------------------------------------------------------

  /** `EntryImporter.PortingOption`, as chosen in the merge dialog. */
  datatype PortingOption =
    | CloneTreeAsChild
    | AddSingularAsChild
    | ReplaceSingular
    | MergeTreeChildren
    | CloneAllDependencies
    | Cancel

  /**
   * What the drop reads of a tree node's entry: its UIndex, whether its game
   * is a Legendary Edition game, the package it belongs to (none when it has
   * no package reference), its instanced full path and its object name.
   */
  datatype DropEntry = DropEntry(uIndex: int, isLEGame: bool, file: Option<nat>, instancedFullPath: string, objectName: string)

  /** A tree node taking part in a drop; `id` tells nodes apart, and only a root has no parent. */
  datatype DropNode = DropNode(id: nat, hasParent: bool, entry: Option<DropEntry>)

  /** What the user is asked during the drop. */
  datatype DropAnswers = DropAnswers(option: PortingOption, acceptRename: bool)

  datatype DropOutcome =
    | NotDraggable
    | MixedGames
    | Ignored
    | Cancelled
    | NoSourceFile
    | DeclinedRename
      /**
       * Import `source` under `targetLink` (0: the root) with `option`;
       * `renamed` says `source` is a renamed copy. A renamed copy carries its
       * new object name, but its `instancedFullPath` is still the path before
       * the rename: the drop only reads the path for the collision test,
       * which is made before the rename.
       */
    | Port(option: PortingOption, source: DropEntry, targetLink: int, renamed: bool)

  /** The ported entry would land on a path the target's package already has. */
  predicate PathTaken(source: DropNode, target: DropNode, targetFilePaths: set<string>)
    requires source.entry.Some?
  {
    target.entry.Some? && source.entry.value.instancedFullPath in targetFilePaths
  }

  /**
   * `Drop`: a root node cannot be dragged; entries of an original-trilogy
   * game and of a Legendary Edition game cannot be mixed; dropping a node on
   * itself or on a node of its own package does nothing; the dialog can
   * cancel; a source without a package is dropped. Unless the option is
   * `ReplaceSingular`, a source whose instanced full path already exists in
   * the target's package is ported only when the user accepts, and then as a
   * copy renamed to `nextIndexedName` (the target package's next free
   * indexed name for it), leaving the source entry itself untouched.
   * `targetFilePaths` are the instanced full paths of the target's package.
   */
  function DropDecision(source: DropNode, target: DropNode, answers: DropAnswers,
                        targetFilePaths: set<string>, nextIndexedName: string): (r: DropOutcome)
    requires source.hasParent ==> source.entry.Some?
    ensures r.NotDraggable? <==> !source.hasParent
    ensures r.MixedGames? <==> source.hasParent && target.entry.Some?
                               && source.entry.value.isLEGame != target.entry.value.isLEGame
    ensures r.Port? ==>
              && source.hasParent && source.id != target.id
              && source.entry.value.file.Some?
              && (target.entry.Some? ==> target.entry.value.isLEGame == source.entry.value.isLEGame
                                         && target.entry.value.file != source.entry.value.file)
              && r.option == answers.option != Cancel
              && r.targetLink == (if target.entry.Some? then target.entry.value.uIndex else 0)
    ensures r.Port? ==>
              && (r.renamed <==> answers.option != ReplaceSingular && PathTaken(source, target, targetFilePaths))
              && (r.renamed ==> r.source == source.entry.value.(objectName := nextIndexedName) && answers.acceptRename)
              && (!r.renamed ==> r.source == source.entry.value)
    ensures r.DeclinedRename? <==>
              && source.hasParent && !r.MixedGames? && !r.Ignored? && answers.option != Cancel
              && source.entry.value.file.Some?
              && answers.option != ReplaceSingular && PathTaken(source, target, targetFilePaths)
              && !answers.acceptRename
  {
    if !source.hasParent then NotDraggable
    else
      var src := source.entry.value;
      if target.entry.Some? && target.entry.value.isLEGame != src.isLEGame then MixedGames
      else if source.id == target.id || (target.entry.Some? && src.file == target.entry.value.file) then Ignored
      else if answers.option == Cancel then Cancelled
      else if src.file.None? then NoSourceFile
      else
        var link := if target.entry.Some? then target.entry.value.uIndex else 0;
        if answers.option != ReplaceSingular && PathTaken(source, target, targetFilePaths) then
          if !answers.acceptRename then DeclinedRename
          else Port(answers.option, src.(objectName := nextIndexedName), link, true)
        else Port(answers.option, src, link, false)
  }

  /**
   * When the dropped entry's path is already taken in the target package and
   * the option does not replace in place, the drop either ports nothing or
   * ports a copy renamed to `nextIndexedName`. That this name is free in the
   * target package is what the library's `GetNextIndexedName` is taken to
   * promise; it is not proved here.
   */
  lemma DropRenamesOntoTakenPath(source: DropNode, target: DropNode, answers: DropAnswers,
                                 targetFilePaths: set<string>, nextIndexedName: string)
    requires source.hasParent ==> source.entry.Some?
    requires source.hasParent && PathTaken(source, target, targetFilePaths) && answers.option != ReplaceSingular
    ensures var r := DropDecision(source, target, answers, targetFilePaths, nextIndexedName);
            r.Port? ==> r.renamed && r.source.objectName == nextIndexedName
  {
  }

  /** A drop the user lets through every question ports exactly when the guards pass. */
  lemma DropPortsWhenGuardsPass(source: DropNode, target: DropNode, option: PortingOption,
                                targetFilePaths: set<string>, nextIndexedName: string)
    requires source.hasParent && source.entry.Some? && source.entry.value.file.Some?
    requires source.id != target.id && option != Cancel
    requires target.entry.Some? ==> target.entry.value.isLEGame == source.entry.value.isLEGame
                                    && target.entry.value.file != source.entry.value.file
    ensures DropDecision(source, target, DropAnswers(option, true), targetFilePaths, nextIndexedName).Port?
  {
  }
}
