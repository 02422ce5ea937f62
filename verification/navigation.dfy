/**
 * Moving the selection around the editor: the wrap-around step of the search
 * loops, the searches by class and by text, the tab keys, going to an entry
 * by number and the back/forward history of selected entries.
 *
 * The editor's selection state is an `EditorNavigation` object. The tree it
 * navigates is given as the flattened list of its nodes (`FlattenTree`
 * order, the package root first), and the package's tables and names as
 * fixed values: none of these commands changes the package.
 */
module Navigation {
  import opened Text
  import opened Entries

  datatype View = Tree | Exports | Imports | Names

  /** The export and import lists, between which going to a number may switch. */
  predicate IsEntryList(v: View)
  {
    v == Exports || v == Imports
  }

  /**
   * The history stack `stack` once the current UIndex `cur` is pushed before
   * moving to `target`: not when nothing or the root is selected, and not
   * when the current entry is the target itself.
   */
  function Pushed(stack: seq<int>, cur: Option<int>, target: int): (r: seq<int>)
    ensures 0 !in stack ==> 0 !in r
  {
    if cur.Some? && cur.value != 0 && target != cur.value then stack + [cur.value] else stack
  }

  /** A node of the flattened tree: its UIndex and its entry (none for the package root). */
  datatype TreeItem = TreeItem(uIndex: int, entry: Option<Entry>)

  /**
   * The position reached `k` steps after `first` going round `count`
   * positions, forward or (with `reverse`) backward.
   */
  function Visit(first: int, count: int, reverse: bool, k: int): (r: int)
    ensures 0 <= first < count && 0 <= k <= count ==> 0 <= r < count
  {
    if reverse then (if first - k >= 0 then first - k else first - k + count)
    else (if first + k < count then first + k else first + k - count)
  }

  /**
   * `LoopFunc`: one step forward or back, to the other end when it leaves
   * the list. From a position in the list it is one step of `Visit`; from
   * just outside it (-1 for "nothing selected") it lands in the list.
   */
  function LoopFunc(i: int, count: int, reverse: bool): (r: int)
    ensures 0 < count && -1 <= i <= count ==> 0 <= r < count
    ensures 0 <= i < count ==> r == Visit(i, count, reverse, 1)
  {
    var j := if reverse then i - 1 else i + 1;
    if j < 0 then count - 1 else if j >= count then 0 else j
  }

  /** Stepping with `LoopFunc` walks the `Visit` order, and comes back to `first` after `count` steps. */
  lemma VisitStep(first: int, count: int, reverse: bool, k: nat)
    requires 0 <= first < count && k < count
    ensures Visit(first, count, reverse, k + 1) == LoopFunc(Visit(first, count, reverse, k), count, reverse)
  {
  }

  /** Within one round every position is visited: `k` steps from `first` reach `j`. */
  function StepsTo(first: int, count: int, reverse: bool, j: int): (k: nat)
    requires 0 <= first < count && 0 <= j < count
    ensures k < count && Visit(first, count, reverse, k) == j
  {
    if reverse then (if j <= first then first - j else first - j + count)
    else (if j >= first then j - first else j - first + count)
  }

  /** `v` is the first position, in the visiting order from `first`, whose flag is set. */
  ghost predicate IsFirstHit(hits: seq<bool>, first: int, reverse: bool, v: int)
    requires 0 <= first < |hits|
  {
    exists k :: 0 <= k < |hits| && Visit(first, |hits|, reverse, k) == v && hits[v]
                && forall k' :: 0 <= k' < k ==> !hits[Visit(first, |hits|, reverse, k')]
  }

  /**
   * The wrap-around search loop: steps once from `start` with `LoopFunc`,
   * then looks at `count` positions in turn and stops at the first hit.
   * It finds nothing only when no position is a hit.
   */
  method CircularFind(hits: seq<bool>, start: int, reverse: bool) returns (found: Option<nat>)
    requires -1 <= start <= |hits|
    ensures found.Some? ==> found.value < |hits| && hits[found.value]
                            && IsFirstHit(hits, LoopFunc(start, |hits|, reverse), reverse, found.value)
    ensures found.None? <==> forall j :: 0 <= j < |hits| ==> !hits[j]
  {
    var count := |hits|;
    ghost var first := LoopFunc(start, count, reverse);
    var i := LoopFunc(start, count, reverse);
    var numSearched := 0;
    while numSearched < count
      invariant 0 <= numSearched <= count
      invariant count > 0 ==> i == Visit(first, count, reverse, numSearched)
      invariant forall k :: 0 <= k < numSearched ==> !hits[Visit(first, count, reverse, k)]
    {
      if hits[i] {
        return Some(i);
      }
      VisitStep(first, count, reverse, numSearched);
      i := LoopFunc(i, count, reverse);
      numSearched := numSearched + 1;
    }
    forall j | 0 <= j < count
      ensures !hits[j]
    {
      var k := StepsTo(first, count, reverse, j);
    }
    return None;
  }

  /** The forward-only search of the list views: the first hit at or after `from`. */
  method LinearFind(hits: seq<bool>, from: int) returns (found: Option<nat>)
    requires from >= 0
    ensures found.Some? ==> from <= found.value < |hits| && hits[found.value]
                            && forall j :: from <= j < found.value ==> !hits[j]
    ensures found.None? <==> forall j :: from <= j < |hits| ==> !hits[j]
  {
    var i := from;
    while i < |hits|
      invariant from <= i
      invariant forall j :: from <= j < i && j < |hits| ==> !hits[j]
    {
      if hits[i] {
        return Some(i);
      }
      i := i + 1;
    }
    return None;
  }

  /** `TabRight`: the next enabled and visible tab after `selected`, or `selected` when there is none. */
  method TabRight(usable: seq<bool>, selected: int) returns (r: int)
    requires selected >= -1
    ensures r == selected <==> forall j :: selected < j < |usable| ==> !usable[j]
    ensures r != selected ==> selected < r < |usable| && usable[r] && forall j :: selected < j < r ==> !usable[j]
  {
    var index := selected + 1;
    while index < |usable|
      invariant selected < index
      invariant forall j :: selected < j < index && j < |usable| ==> !usable[j]
    {
      if usable[index] {
        return index;
      }
      index := index + 1;
    }
    return selected;
  }

  /** `TabLeft`: the nearest enabled and visible tab before `selected`, or `selected` when there is none. */
  method TabLeft(usable: seq<bool>, selected: int) returns (r: int)
    requires selected <= |usable|
    ensures r == selected <==> forall j :: 0 <= j < selected ==> !usable[j]
    ensures r != selected ==> 0 <= r < selected && usable[r] && forall j :: r < j < selected ==> !usable[j]
  {
    var index := selected - 1;
    while index >= 0
      invariant index < selected
      invariant forall j :: index < j < selected && 0 <= j ==> !usable[j]
    {
      if usable[index] {
        return index;
      }
      index := index - 1;
    }
    return selected;
  }

  /** The tree nodes (with an entry) whose class is `cls`. */
  function TreeClassHits(tree: seq<TreeItem>, cls: string): seq<bool>
  {
    seq(|tree|, i requires 0 <= i < |tree| => tree[i].entry.Some? && tree[i].entry.value.className == cls)
  }

  /** The table rows whose class is `cls`. */
  function EntryClassHits(entries: seq<Entry>, cls: string): seq<bool>
  {
    seq(|entries|, i requires 0 <= i < |entries| => entries[i].className == cls)
  }

  /** `s.ToLower().Contains(term)`. */
  predicate Matches(s: string, term: string)
  {
    Contains(Lower(s), term)
  }

  /** The tree nodes (with an entry) whose instanced name matches `term`. */
  function TreeTextHits(tree: seq<TreeItem>, term: string): seq<bool>
  {
    seq(|tree|, i requires 0 <= i < |tree| =>
      tree[i].entry.Some? && Matches(InstancedName(tree[i].entry.value.objectName, tree[i].entry.value.indexValue), term))
  }

  /** The table rows whose bare object name matches `term`. */
  function EntryTextHits(entries: seq<Entry>, term: string): seq<bool>
  {
    seq(|entries|, i requires 0 <= i < |entries| => Matches(entries[i].objectName, term))
  }

  /** The names that match `term`. */
  function NameTextHits(names: seq<string>, term: string): seq<bool>
  {
    seq(|names|, i requires 0 <= i < |names| => Matches(names[i], term))
  }

  /** The first node of the flattened tree that has an entry with UIndex `u`. */
  function FirstNodeOf(tree: seq<TreeItem>, u: int): (r: Option<nat>)
    ensures r.Some? ==> r.value < |tree| && tree[r.value].entry.Some? && tree[r.value].uIndex == u
                        && forall p :: 0 <= p < r.value ==> !(tree[p].entry.Some? && tree[p].uIndex == u)
    ensures r.None? <==> forall p :: 0 <= p < |tree| ==> !(tree[p].entry.Some? && tree[p].uIndex == u)
  {
    if tree == [] then None
    else if tree[0].entry.Some? && tree[0].uIndex == u then Some(0)
    else match FirstNodeOf(tree[1..], u)
      case None => None
      case Some(p) => Some(p + 1)
  }

  class EditorNavigation {
    const tree: seq<TreeItem>
    const tables: Tables
    const names: seq<string>
    var view: View
    var isLoadingFile: bool
    var queuedGotoNumber: int
    /** The list view's selected index, -1 for none. */
    var listSelectedIndex: int
    /** The selected tree node, as its position in `tree`. */
    var selected: Option<nat>
    /** The back and forward stacks of UIndices; the top is the last element. */
    var backwards: seq<int>
    var forwards: seq<int>
    var isBackForwardsNavigationEvent: bool
    var suppressSelectionEvent: bool

    /** The number of rows the list shows in view `v`. */
    function ListCount(v: View): nat
    {
      match v
      case Tree => 0
      case Exports => |tables.exports|
      case Imports => |tables.imports|
      case Names => |names|
    }

    /**
     * The selection points into the tree or list, and the history never
     * holds the package root (UIndex 0).
     */
    ghost predicate Valid()
      reads this
    {
      && (selected.Some? ==> selected.value < |tree|)
      && -1 <= listSelectedIndex
      && (view != Tree ==> listSelectedIndex < ListCount(view))
      && 0 !in backwards
      && 0 !in forwards
    }

    constructor (tree: seq<TreeItem>, tables: Tables, names: seq<string>, view: View, isLoadingFile: bool)
      ensures Valid()
      ensures this.tree == tree && this.tables == tables && this.names == names
      ensures this.view == view && this.isLoadingFile == isLoadingFile && queuedGotoNumber == 0
      ensures listSelectedIndex == -1 && selected == None && backwards == [] && forwards == []
      ensures !isBackForwardsNavigationEvent && !suppressSelectionEvent
    {
      this.tree := tree;
      this.tables := tables;
      this.names := names;
      this.view := view;
      this.isLoadingFile := isLoadingFile;
      queuedGotoNumber := 0;
      listSelectedIndex := -1;
      selected := None;
      backwards := [];
      forwards := [];
      isBackForwardsNavigationEvent := false;
      suppressSelectionEvent := false;
    }

    /** The UIndex of the selected tree node. */
    function SelectedUIndex(): Option<int>
      requires Valid()
      reads this
    {
      if selected.Some? then Some(tree[selected.value].uIndex) else None
    }

    /** `GetSelected`: the UIndex selected in the current view; none in the names view or without a selection. */
    function GetSelected(): Option<int>
      requires Valid()
      reads this
    {
      match view
      case Tree => SelectedUIndex()
      case Exports => if listSelectedIndex >= 0 then Some(listSelectedIndex + 1) else None
      case Imports => if listSelectedIndex >= 0 then Some(-listSelectedIndex - 1) else None
      case Names => None
    }

    /** Selecting `node` records the previous selection in the back history. */
    predicate RecordsSelection(node: Option<nat>)
      requires Valid()
      reads this
    {
      node != selected && !suppressSelectionEvent && !isBackForwardsNavigationEvent
      && SelectedUIndex().Some? && SelectedUIndex().value != 0
    }

    /** `GoToNumber(u)` succeeds. */
    predicate CanGoTo(u: int)
      reads this
    {
      u != 0 && !isLoadingFile &&
      match view
      case Tree => FirstNodeOf(tree, u).Some?
      case Exports => tables.Has(u)
      case Imports => tables.Has(u)
      case Names => 0 <= u < |names|
    }

    /** The stacks are reset when a file is loaded. */
    method ResetHistory()
      requires Valid()
      modifies this
      ensures Valid()
      ensures backwards == [] && forwards == []
      ensures view == old(view) && selected == old(selected) && listSelectedIndex == old(listSelectedIndex)
      ensures isBackForwardsNavigationEvent == old(isBackForwardsNavigationEvent)
      ensures suppressSelectionEvent == old(suppressSelectionEvent)
      ensures isLoadingFile == old(isLoadingFile) && queuedGotoNumber == old(queuedGotoNumber)
    {
      backwards := [];
      forwards := [];
    }

    /**
     * The `SelectedItem` setter: a changed selection, unless suppressed,
     * pushes the previously selected UIndex (not the root, and not during a
     * back/forward move) and clears the forward history.
     */
    method SetSelectedItem(node: Option<nat>)
      requires Valid() && (node.Some? ==> node.value < |tree|)
      modifies this
      ensures Valid()
      ensures selected == node
      ensures old(RecordsSelection(node)) ==> backwards == old(backwards) + [old(SelectedUIndex()).value] && forwards == []
      ensures !old(RecordsSelection(node)) ==> backwards == old(backwards) && forwards == old(forwards)
      ensures view == old(view) && listSelectedIndex == old(listSelectedIndex)
      ensures isBackForwardsNavigationEvent == old(isBackForwardsNavigationEvent)
      ensures suppressSelectionEvent == old(suppressSelectionEvent)
      ensures isLoadingFile == old(isLoadingFile) && queuedGotoNumber == old(queuedGotoNumber)
    {
      var oldIndex := SelectedUIndex();
      var changed := node != selected;
      selected := node;
      if changed && !suppressSelectionEvent {
        if oldIndex.Some? && oldIndex.value != 0 && !isBackForwardsNavigationEvent {
          backwards := backwards + [oldIndex.value];
          forwards := [];
        }
      }
    }

    /**
     * `GoToNumber`: 0 is refused; while a file loads the number is queued;
     * in the tree the first node with that UIndex is selected (or the number
     * queued when there is none); in the export and import lists the entry's
     * row is selected, switching list when the entry is of the other kind;
     * in the names list the number is a name index. Success means the
     * selection now shows that number.
     */
    method GoToNumber(entryIndex: int) returns (ok: bool)
      requires Valid()
      modifies this
      ensures Valid()
      ensures ok <==> old(CanGoTo(entryIndex))
      ensures old(view) == Names ==> (ok <==> !old(isLoadingFile) && 0 < entryIndex < |names|)
      ensures ok && old(view) != Names ==> GetSelected() == Some(entryIndex)
      ensures ok && old(view) == Names ==> view == Names && listSelectedIndex == entryIndex
      ensures ok && old(view) == Tree ==> selected == FirstNodeOf(tree, entryIndex)
      ensures old(view) == Tree && old(RecordsSelection(FirstNodeOf(tree, entryIndex))) && ok ==>
                backwards == old(backwards) + [old(SelectedUIndex()).value] && forwards == []
      ensures !(old(view) == Tree && old(RecordsSelection(FirstNodeOf(tree, entryIndex))) && ok) ==>
                backwards == old(backwards) && forwards == old(forwards)
      ensures !ok ==> view == old(view) && selected == old(selected) && listSelectedIndex == old(listSelectedIndex)
      ensures old(view) != Tree ==> selected == old(selected)
      ensures queuedGotoNumber == if !ok && entryIndex != 0 && (old(isLoadingFile) || old(view) == Tree)
                                  then entryIndex else old(queuedGotoNumber)
      ensures view == old(view) || (IsEntryList(old(view)) && IsEntryList(view))
      ensures isBackForwardsNavigationEvent == old(isBackForwardsNavigationEvent)
      ensures suppressSelectionEvent == old(suppressSelectionEvent) && isLoadingFile == old(isLoadingFile)
    {
      if entryIndex == 0 {
        return false;
      }
      if isLoadingFile {
        queuedGotoNumber := entryIndex;
        return false;
      }
      match view
      case Tree =>
        var node := FirstNodeOf(tree, entryIndex);
        if node.Some? {
          SetSelectedItem(node);
          return true;
        }
        queuedGotoNumber := entryIndex;
        return false;
      case Exports =>
        ok := GoToListEntry(entryIndex);
      case Imports =>
        ok := GoToListEntry(entryIndex);
      case Names =>
        if 0 <= entryIndex < |names| {
          listSelectedIndex := entryIndex;
          return true;
        }
        return false;
    }

    /** The export/import list branch of `GoToNumber`. */
    method GoToListEntry(entryIndex: int) returns (ok: bool)
      requires Valid() && (view == Exports || view == Imports)
      modifies this
      ensures Valid()
      ensures ok <==> tables.Has(entryIndex)
      ensures ok ==> view == (if entryIndex > 0 then Exports else Imports)
                     && listSelectedIndex == (if entryIndex > 0 then entryIndex else -entryIndex) - 1
                     && GetSelected() == Some(entryIndex)
      ensures !ok ==> view == old(view) && listSelectedIndex == old(listSelectedIndex)
      ensures selected == old(selected) && backwards == old(backwards) && forwards == old(forwards)
      ensures isBackForwardsNavigationEvent == old(isBackForwardsNavigationEvent) && queuedGotoNumber == old(queuedGotoNumber)
      ensures suppressSelectionEvent == old(suppressSelectionEvent) && isLoadingFile == old(isLoadingFile)
    {
      if !tables.Has(entryIndex) {
        return false;
      }
      if view == Exports && entryIndex < 0 {
        view := Imports;
      } else if view == Imports && entryIndex > 0 {
        view := Exports;
      }
      listSelectedIndex := (if entryIndex > 0 then entryIndex else -entryIndex) - 1;
      return true;
    }

    /**
     * `NavigateToPreviousEntry`: pops the back stack and goes to that
     * number, first pushing the current UIndex on the forward stack unless
     * it is the root or already the target. The move itself records nothing.
     */
    method NavigateToPreviousEntry()
      requires Valid()
      modifies this
      ensures Valid()
      ensures view == old(view) || (IsEntryList(old(view)) && IsEntryList(view))
      ensures suppressSelectionEvent == old(suppressSelectionEvent) && isLoadingFile == old(isLoadingFile)
      ensures old(backwards) == [] ==>
                && backwards == old(backwards) && forwards == old(forwards) && selected == old(selected)
                && isBackForwardsNavigationEvent == old(isBackForwardsNavigationEvent)
                && view == old(view) && listSelectedIndex == old(listSelectedIndex)
                && queuedGotoNumber == old(queuedGotoNumber)
      ensures old(backwards) != [] ==>
                var top := old(backwards)[|old(backwards)| - 1];
                var cur := old(SelectedUIndex());
                && backwards == old(backwards)[..|old(backwards)| - 1]
                && forwards == Pushed(old(forwards), cur, top)
                && !isBackForwardsNavigationEvent
                && (old(CanGoTo(top)) && old(view) != Names ==> GetSelected() == Some(top))
                && (old(CanGoTo(top)) && old(view) == Tree ==> selected == FirstNodeOf(tree, top))
                && (old(CanGoTo(top)) && old(view) == Names ==> view == Names && listSelectedIndex == top)
                && (!old(CanGoTo(top)) ==>
                      view == old(view) && selected == old(selected) && listSelectedIndex == old(listSelectedIndex))
                && (old(view) != Tree ==> selected == old(selected))
                && queuedGotoNumber == if !old(CanGoTo(top)) && top != 0 && (old(isLoadingFile) || old(view) == Tree)
                                       then top else old(queuedGotoNumber)
    {
      if |backwards| > 0 {
        var top := backwards[|backwards| - 1];
        forwards := Pushed(forwards, SelectedUIndex(), top);
        backwards := backwards[..|backwards| - 1];
        isBackForwardsNavigationEvent := true;
        var _ := GoToNumber(top);
        isBackForwardsNavigationEvent := false;
      }
    }

    /**
     * `NavigateToNextEntry` as written: pops the forward stack and goes to
     * that number, first pushing the current UIndex on the back stack unless
     * it is the root or already the target. The flag that keeps the move out
     * of the history is set again afterwards instead of being cleared, so it
     * stays set.
     */
    method NavigateToNextEntry()
      requires Valid()
      modifies this
      ensures Valid()
      ensures view == old(view) || (IsEntryList(old(view)) && IsEntryList(view))
      ensures suppressSelectionEvent == old(suppressSelectionEvent) && isLoadingFile == old(isLoadingFile)
      ensures old(forwards) == [] ==>
                && backwards == old(backwards) && forwards == old(forwards) && selected == old(selected)
                && isBackForwardsNavigationEvent == old(isBackForwardsNavigationEvent)
                && view == old(view) && listSelectedIndex == old(listSelectedIndex)
                && queuedGotoNumber == old(queuedGotoNumber)
      ensures old(forwards) != [] ==>
                var top := old(forwards)[|old(forwards)| - 1];
                var cur := old(SelectedUIndex());
                && forwards == old(forwards)[..|old(forwards)| - 1]
                && backwards == Pushed(old(backwards), cur, top)
                && isBackForwardsNavigationEvent
                && (old(CanGoTo(top)) && old(view) != Names ==> GetSelected() == Some(top))
                && (old(CanGoTo(top)) && old(view) == Tree ==> selected == FirstNodeOf(tree, top))
                && (old(CanGoTo(top)) && old(view) == Names ==> view == Names && listSelectedIndex == top)
                && (!old(CanGoTo(top)) ==>
                      view == old(view) && selected == old(selected) && listSelectedIndex == old(listSelectedIndex))
                && (old(view) != Tree ==> selected == old(selected))
                && queuedGotoNumber == if !old(CanGoTo(top)) && top != 0 && (old(isLoadingFile) || old(view) == Tree)
                                       then top else old(queuedGotoNumber)
    {
      if |forwards| > 0 {
        var top := forwards[|forwards| - 1];
        backwards := Pushed(backwards, SelectedUIndex(), top);
        forwards := forwards[..|forwards| - 1];
        isBackForwardsNavigationEvent := true;
        var _ := GoToNumber(top);
        isBackForwardsNavigationEvent := true;
      }
    }

    /** `NavigateToNextEntry` as evidently intended: the flag is cleared after the move, as going back does. */
    method NavigateToNextEntryIntended()
      requires Valid()
      modifies this
      ensures Valid()
      ensures view == old(view) || (IsEntryList(old(view)) && IsEntryList(view))
      ensures suppressSelectionEvent == old(suppressSelectionEvent) && isLoadingFile == old(isLoadingFile)
      ensures old(forwards) == [] ==>
                && backwards == old(backwards) && forwards == old(forwards) && selected == old(selected)
                && isBackForwardsNavigationEvent == old(isBackForwardsNavigationEvent)
                && view == old(view) && listSelectedIndex == old(listSelectedIndex)
                && queuedGotoNumber == old(queuedGotoNumber)
      ensures old(forwards) != [] ==>
                var top := old(forwards)[|old(forwards)| - 1];
                var cur := old(SelectedUIndex());
                && forwards == old(forwards)[..|old(forwards)| - 1]
                && backwards == Pushed(old(backwards), cur, top)
                && !isBackForwardsNavigationEvent
                && (old(CanGoTo(top)) && old(view) != Names ==> GetSelected() == Some(top))
                && (old(CanGoTo(top)) && old(view) == Tree ==> selected == FirstNodeOf(tree, top))
                && (old(CanGoTo(top)) && old(view) == Names ==> view == Names && listSelectedIndex == top)
                && (!old(CanGoTo(top)) ==>
                      view == old(view) && selected == old(selected) && listSelectedIndex == old(listSelectedIndex))
                && (old(view) != Tree ==> selected == old(selected))
                && queuedGotoNumber == if !old(CanGoTo(top)) && top != 0 && (old(isLoadingFile) || old(view) == Tree)
                                       then top else old(queuedGotoNumber)
    {
      if |forwards| > 0 {
        var top := forwards[|forwards| - 1];
        backwards := Pushed(backwards, SelectedUIndex(), top);
        forwards := forwards[..|forwards| - 1];
        isBackForwardsNavigationEvent := true;
        var _ := GoToNumber(top);
        isBackForwardsNavigationEvent := false;
      }
    }
  
    /** The rows or nodes of view `v` whose class is `cls` (the names view has no class search). */
    function ClassHitsIn(v: View, cls: string): seq<bool>
    {
      match v
      case Tree => TreeClassHits(tree, cls)
      case Exports => EntryClassHits(tables.exports, cls)
      case Imports => EntryClassHits(tables.imports, cls)
      case Names => []
    }

    /** The rows or nodes of view `v` that the text search matches with `term`. */
    function TextHitsIn(v: View, term: string): (r: seq<bool>)
      ensures v == Tree ==> |r| == |tree|
      ensures v != Tree ==> |r| == ListCount(v)
    {
      match v
      case Tree => TreeTextHits(tree, term)
      case Exports => EntryTextHits(tables.exports, term)
      case Imports => EntryTextHits(tables.imports, term)
      case Names => NameTextHits(names, term)
    }

    /** What a search moves: the selected node in the tree, the selected row in a list. */
    function Cursor(): Option<nat>
      requires Valid()
      reads this
    {
      if view == Tree then selected else if listSelectedIndex >= 0 then Some(listSelectedIndex) else None
    }

    /** The position the text search steps away from: the cursor, or -1 without one. */
    function SearchStart(): int
      requires Valid()
      reads this
    {
      if view == Tree then (if selected.None? then -1 else selected.value) else listSelectedIndex
    }

    /**
     * `Search`: with a non-empty search text, looks once round the current
     * view from just past the cursor for a row or node whose name, lower-cased,
     * contains the lower-cased text, and moves the cursor to the first one.
     */
    method Search(text: string, reverse: bool)
      requires Valid()
      modifies this
      ensures Valid()
      ensures view == old(view) && isLoadingFile == old(isLoadingFile) && queuedGotoNumber == old(queuedGotoNumber)
      ensures isBackForwardsNavigationEvent == old(isBackForwardsNavigationEvent)
      ensures suppressSelectionEvent == old(suppressSelectionEvent)
      ensures view != Tree ==> selected == old(selected) && backwards == old(backwards) && forwards == old(forwards)
      ensures view == Tree ==> listSelectedIndex == old(listSelectedIndex)
      ensures view == Tree ==>
                var s := selected;
                && (old(RecordsSelection(s)) ==>
                      backwards == old(backwards) + [old(SelectedUIndex()).value] && forwards == [])
                && (!old(RecordsSelection(s)) ==> backwards == old(backwards) && forwards == old(forwards))
      ensures text == "" ==> Cursor() == old(Cursor()) && backwards == old(backwards) && forwards == old(forwards)
      ensures text != "" ==>
                var hits := TextHitsIn(view, Lower(text));
                && ((exists j :: 0 <= j < |hits| && hits[j]) ==>
                      Cursor().Some? && Cursor().value < |hits| && hits[Cursor().value]
                      && IsFirstHit(hits, LoopFunc(old(SearchStart()), |hits|, reverse), reverse, Cursor().value))
                && ((forall j :: 0 <= j < |hits| ==> !hits[j]) ==> Cursor() == old(Cursor()))
    {
      if text == "" {
        return;
      }
      var term := Lower(text);
      var start := listSelectedIndex;
      if view == Names || view == Imports || view == Exports {
        var found := CircularFind(TextHitsIn(view, term), start, reverse);
        if found.Some? {
          listSelectedIndex := found.value;
        }
      }
      if view == Tree && |tree| > 0 {
        var pos := if selected.None? then -1 else selected.value;
        var found := CircularFind(TreeTextHits(tree, term), pos, reverse);
        if found.Some? {
          SetSelectedItem(found);
        }
      }
    }

    /**
     * `FindNextObjectByClass`: in the tree, looks once round from just past
     * the selected node (from node 1 when nothing is selected) for a node of
     * the class and selects the first one; in the export or import list,
     * selects the first row of the class after the selected row, without
     * wrapping round. The names view has no class search.
     */
    method FindNextObjectByClass(searchClass: Option<string>, reverse: bool)
      requires Valid()
      modifies this
      ensures Valid()
      ensures view == old(view) && isLoadingFile == old(isLoadingFile) && queuedGotoNumber == old(queuedGotoNumber)
      ensures isBackForwardsNavigationEvent == old(isBackForwardsNavigationEvent)
      ensures suppressSelectionEvent == old(suppressSelectionEvent)
      ensures view != Tree ==> selected == old(selected) && backwards == old(backwards) && forwards == old(forwards)
      ensures view == Tree ==> listSelectedIndex == old(listSelectedIndex)
      ensures view == Tree ==>
                var s := selected;
                && (old(RecordsSelection(s)) ==>
                      backwards == old(backwards) + [old(SelectedUIndex()).value] && forwards == [])
                && (!old(RecordsSelection(s)) ==> backwards == old(backwards) && forwards == old(forwards))
      ensures searchClass.None? || view == Names ==>
                Cursor() == old(Cursor()) && backwards == old(backwards) && forwards == old(forwards)
      ensures searchClass.Some? && view == Tree ==>
                var hits := ClassHitsIn(view, searchClass.value);
                && ((exists j :: 0 <= j < |hits| && hits[j]) ==>
                      selected.Some? && selected.value < |hits| && hits[selected.value]
                      && IsFirstHit(hits, LoopFunc(if old(selected).None? then 0 else old(selected).value, |hits|, reverse),
                                    reverse, selected.value))
                && ((forall j :: 0 <= j < |hits| ==> !hits[j]) ==> selected == old(selected))
      ensures searchClass.Some? && IsEntryList(view) ==>
                var hits := ClassHitsIn(view, searchClass.value);
                var from := if old(listSelectedIndex) == -1 then 0 else old(listSelectedIndex) + 1;
                && ((exists j :: from <= j < |hits| && hits[j]) ==>
                      from <= listSelectedIndex < |hits| && hits[listSelectedIndex]
                      && forall j :: from <= j < listSelectedIndex ==> !hits[j])
                && ((forall j :: from <= j < |hits| ==> !hits[j]) ==> listSelectedIndex == old(listSelectedIndex))
    {
      if searchClass.None? {
        return;
      }
      var cls := searchClass.value;
      if view == Tree {
        var pos := if selected.None? then 0 else selected.value;
        var found := CircularFind(TreeClassHits(tree, cls), pos, reverse);
        if found.Some? {
          SetSelectedItem(found);
        }
      } else {
        var n := listSelectedIndex;
        var start := if n == -1 then 0 else n + 1;
        if view == Exports {
          var found := LinearFind(EntryClassHits(tables.exports, cls), start);
          if found.Some? {
            listSelectedIndex := found.value;
          }
        } else if view == Imports {
          var found := LinearFind(EntryClassHits(tables.imports, cls), start);
          if found.Some? {
            listSelectedIndex := found.value;
          }
        }
      }
    }
  }

  /** A tree whose nodes 1 and 2 are the first to carry UIndices 1 and 2: the setting of the history scenarios. */
  predicate TwoEntryTree(tree: seq<TreeItem>)
  {
    |tree| >= 3 && FirstNodeOf(tree, 1) == Some(1) && FirstNodeOf(tree, 2) == Some(2)
  }

  /** Such a tree exists: the package root followed by two exports. */
  function ScenarioTree(): (r: seq<TreeItem>)
    ensures TwoEntryTree(r)
  {
    var e := Entry(0, "A", 0, "Class", false);
    var tree := [TreeItem(0, None), TreeItem(1, Some(e)), TreeItem(2, Some(e))];
    assert tree[1].entry.Some? && tree[1].uIndex == 1 && tree[2].entry.Some? && tree[2].uIndex == 2;
    tree
  }

  /** Entry 1 and then entry 2 are selected in the tree: leaving entry 1 is recorded. */
  method SelectOneThenTwo(tree: seq<TreeItem>, tables: Tables) returns (nav: EditorNavigation)
    requires TwoEntryTree(tree)
    ensures fresh(nav) && nav.Valid() && nav.tree == tree
    ensures nav.view == Tree && !nav.isLoadingFile && !nav.suppressSelectionEvent && !nav.isBackForwardsNavigationEvent
    ensures nav.selected == Some(2) && nav.backwards == [1] && nav.forwards == []
  {
    nav := new EditorNavigation(tree, tables, [], Tree, false);
    nav.SetSelectedItem(Some(1));
    assert nav.RecordsSelection(Some(2));
    nav.SetSelectedItem(Some(2));
  }

  /** Then the user goes back: entry 1 is shown and entry 2 is ahead. */
  method SelectTwoThenGoBack(tree: seq<TreeItem>, tables: Tables) returns (nav: EditorNavigation)
    requires TwoEntryTree(tree)
    ensures fresh(nav) && nav.Valid() && nav.tree == tree
    ensures nav.view == Tree && !nav.isLoadingFile && !nav.suppressSelectionEvent && !nav.isBackForwardsNavigationEvent
    ensures nav.selected == Some(1) && nav.backwards == [] && nav.forwards == [2]
  {
    nav := SelectOneThenTwo(tree, tables);
    assert nav.SelectedUIndex() == Some(2) && nav.CanGoTo(1);
    nav.NavigateToPreviousEntry();
  }

  /**
   * The history after going back and then forward, as written: the user
   * then selects entry 1 while entry 2 is shown, and the back stack stays
   * [1] — leaving entry 2 is not recorded because the navigation flag was
   * left set.
   */
  method ForwardThenSelectLosesHistory(tree: seq<TreeItem>, tables: Tables) returns (backwardsAfter: seq<int>)
    requires TwoEntryTree(tree)
    ensures backwardsAfter == [1]
  {
    var nav := SelectTwoThenGoBack(tree, tables);
    assert nav.SelectedUIndex() == Some(1) && nav.CanGoTo(2);
    nav.NavigateToNextEntry();
    assert nav.selected == Some(2) && nav.backwards == [1] && nav.isBackForwardsNavigationEvent;
    nav.SetSelectedItem(Some(1));
    backwardsAfter := nav.backwards;
  }

  /** The same steps with the intended forward move: leaving entry 2 is recorded. */
  method ForwardThenSelectKeepsHistory(tree: seq<TreeItem>, tables: Tables) returns (backwardsAfter: seq<int>)
    requires TwoEntryTree(tree)
    ensures backwardsAfter == [1, 2]
  {
    var nav := SelectTwoThenGoBack(tree, tables);
    assert nav.SelectedUIndex() == Some(1) && nav.CanGoTo(2);
    nav.NavigateToNextEntryIntended();
    assert nav.selected == Some(2) && nav.backwards == [1] && !nav.isBackForwardsNavigationEvent;
    assert nav.SelectedUIndex() == Some(2) && nav.RecordsSelection(Some(1));
    nav.SetSelectedItem(Some(1));
    backwardsAfter := nav.backwards;
  }
}
