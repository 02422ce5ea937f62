/**
 * The editor's commands that rewrite the open package in place: the name
 * table edits, reindexing by name, the two duplicate-index tools and zeroing
 * the instance numbers of a subtree.
 *
 * The package is a `Package` object whose name, export and import tables are
 * fields the commands reassign. Confirmation dialogs and prompts become
 * parameters carrying the user's answer.
 */
module PackageEdits {
  import opened Text
  import opened Entries
  import opened Indexing

  /** What `ReindexObjectByName` ends with. */
  datatype ReindexOutcome = NoExportSelected | RejectedTrashed | Declined | Reindexed

  /** The message `AddName` shows: none (empty input), "has been added" or "already exists". */
  datatype AddNameReport = NothingEntered | ReportedAdded(index: nat) | ReportedExisting(index: nat)

  /** `e` is `original` with at most its instance number changed. */
  predicate SameButIndex(e: Entry, original: Entry)
  {
    e.(indexValue := original.indexValue) == original
  }

  /**
   * The tables once the export at position `k` is reindexed by name: every
   * export named like it, under the same parent path and not a class, gets
   * the next instance number from 1 in table order.
   */
  function ReindexByName(t: Tables, k: nat): (r: Tables)
    requires k < |t.exports|
    ensures r.imports == t.imports && |r.exports| == |t.exports|
    ensures forall i :: 0 <= i < |r.exports| ==> SameButIndex(r.exports[i], t.exports[i])
  {
    var name := t.exports[k].objectName;
    var prefix := ParentInstancedFullPath(t, k + 1);
    Tables(seq(|t.exports|, i requires 0 <= i < |t.exports| =>
             if IsReindexTarget(t, i, name, prefix)
             then t.exports[i].(indexValue := NumberGiven(t, name, prefix, i))
             else t.exports[i]),
           t.imports)
  }

  /** The tables once the exports at `heads` are reindexed by name, one after the other. */
  function ReindexEach(t: Tables, heads: seq<nat>): (r: Tables)
    requires forall j :: 0 <= j < |heads| ==> heads[j] < |t.exports|
    ensures r.imports == t.imports && |r.exports| == |t.exports|
    ensures forall i :: 0 <= i < |r.exports| ==> SameButIndex(r.exports[i], t.exports[i])
    decreases |heads|
  {
    if heads == [] then t
    else
      var init := heads[..|heads| - 1];
      ReindexByName(ReindexEach(t, init), heads[|heads| - 1])
  }

  /**
   * The exports the duplicate reindex starts from: the first export of every
   * group of exports outside the trash package sharing an `InstancedFullPath`
   * with more than one member, ascending.
   */
  function DuplicateHeads(t: Tables): (r: seq<nat>)
    ensures forall i :: i in r <==> 0 <= i < |t.exports| && IsGroupHead(ExportKeys(t), i)
    ensures forall p, q :: 0 <= p < q < |r| ==> r[p] < r[q]
    ensures forall j :: 0 <= j < |r| ==> r[j] < |t.exports|
  {
    var keys := ExportKeys(t);
    GroupHeadsOfTable(keys);
    var r := GroupHeads(keys, FirstOccurrences(keys, |keys|));
    assert forall j :: 0 <= j < |r| ==> r[j] in r;
    r
  }

  /** The position of the first `name` in `names`. */
  function FirstIndexOf(names: seq<string>, name: string): (r: nat)
    requires name in names
    ensures r < |names| && names[r] == name && name !in names[..r]
  {
    if names[0] == name then 0
    else
      var r := 1 + FirstIndexOf(names[1..], name);
      assert names[1..][..r - 1] == names[1..r];
      r
  }

  /**
   * The duplicate walk over the export keys in table order: a dictionary
   * from key to the UIndices met with it; an export whose key is already in
   * the dictionary is reported.
   */
  method DuplicatesOf(keys: seq<string>) returns (duplicates: seq<int>)
    ensures forall u :: u in duplicates <==> 1 <= u <= |keys| && IsReportedDuplicate(keys, u - 1)
    ensures forall p, q :: 0 <= p < q < |duplicates| ==> duplicates[p] < duplicates[q]
    ensures |duplicates| + |KeysBelow(keys, |keys|)| == CountedBelow(keys, |keys|)
  {
    var mapping: map<string, seq<int>> := map[];
    ghost var seen: set<string> := {};
    duplicates := [];
    var i := 0;
    while i < |keys|
      invariant 0 <= i <= |keys|
      invariant seen == KeysBelow(keys, i)
      invariant forall key :: key in mapping <==> key in seen
      invariant |duplicates| == DuplicatesBelow(keys, i)
      invariant forall u :: u in duplicates <==> 1 <= u <= i && IsReportedDuplicate(keys, u - 1)
      invariant forall p, q :: 0 <= p < q < |duplicates| ==> duplicates[p] < duplicates[q]
      invariant forall p :: 0 <= p < |duplicates| ==> duplicates[p] <= i
    {
      var key := keys[i];
      if !IsTrashPath(key) {
        assert IsReportedDuplicate(keys, i) <==> key in seen;
        if key !in mapping {
          mapping := mapping[key := []];
        } else {
          duplicates := duplicates + [i + 1];
        }
        mapping := mapping[key := mapping[key] + [i + 1]];
        seen := seen + {key};
      } else {
        assert !IsReportedDuplicate(keys, i);
      }
      i := i + 1;
    }
    DistinctPlusDuplicates(keys, |keys|);
  }

  /**
   * The grouping walk of the duplicate reindex: a dictionary from key to the
   * positions met with it (trash left out), and the keys in the order they
   * were first met.
   */
  method GroupByKey(keys: seq<string>) returns (groups: map<string, seq<nat>>, keyOrder: seq<string>)
    ensures forall key :: key in groups <==> key in KeysBelow(keys, |keys|)
    ensures forall key :: key in groups ==> groups[key] == PositionsOf(keys, key, |keys|)
    ensures |keyOrder| == |FirstOccurrences(keys, |keys|)|
    ensures forall a :: 0 <= a < |keyOrder| ==> keyOrder[a] == keys[FirstOccurrences(keys, |keys|)[a]]
  {
    groups := map[];
    keyOrder := [];
    var i := 0;
    while i < |keys|
      invariant 0 <= i <= |keys|
      invariant forall key :: key in groups <==> key in KeysBelow(keys, i)
      invariant forall key :: key in groups ==> groups[key] == PositionsOf(keys, key, i)
      invariant |keyOrder| == |FirstOccurrences(keys, i)|
      invariant forall a :: 0 <= a < |keyOrder| ==> keyOrder[a] == keys[FirstOccurrences(keys, i)[a]]
    {
      var key := keys[i];
      if !IsTrashPath(key) {
        if key !in groups {
          PositionsStartAtFirstOccurrence(keys, key, i);
          groups := groups[key := []];
          keyOrder := keyOrder + [key];
        }
        groups := groups[key := groups[key] + [i]];
      }
      i := i + 1;
    }
  }

  /**
   * The selection walk of the duplicate reindex: over the groups in the
   * order their keys were first met, the first position of every group with
   * more than one member. These are exactly the group heads, ascending.
   */
  method GroupHeadsOf(keys: seq<string>) returns (heads: seq<nat>)
    ensures forall i :: i in heads <==> 0 <= i < |keys| && IsGroupHead(keys, i)
    ensures forall p, q :: 0 <= p < q < |heads| ==> heads[p] < heads[q]
    ensures heads == GroupHeads(keys, FirstOccurrences(keys, |keys|))
  {
    var groups, keyOrder := GroupByKey(keys);
    ghost var fo := FirstOccurrences(keys, |keys|);
    heads := [];
    var a := 0;
    while a < |keyOrder|
      invariant 0 <= a <= |keyOrder|
      invariant heads == GroupHeads(keys, fo[..a])
    {
      var key := keyOrder[a];
      GroupOfFirstOccurrence(keys, a);
      var list := groups[key];
      if |list| > 1 {
        heads := heads + [list[0]];
      }
      assert fo[..a + 1] == fo[..a] + [fo[a]];
      a := a + 1;
    }
    assert fo[..a] == fo;
    GroupHeadsOfTable(keys);
  }

  class Package {
    var names: seq<string>
    var exports: seq<Entry>
    var imports: seq<Entry>

    /** The two entry tables as they are now. */
    function Snapshot(): Tables
      reads this
    {
      Tables(exports, imports)
    }

    constructor (names: seq<string>, exports: seq<Entry>, imports: seq<Entry>)
      ensures this.names == names && this.exports == exports && this.imports == imports
    {
      this.names := names;
      this.exports := exports;
      this.imports := imports;
    }

    /** `FindNameOrAdd`: the index of an existing name, or the name appended at the end. */
    method FindNameOrAdd(name: string) returns (idx: nat)
      modifies this
      ensures exports == old(exports) && imports == old(imports)
      ensures name in old(names) ==> names == old(names) && idx == FirstIndexOf(names, name)
      ensures name !in old(names) ==> names == old(names) + [name] && idx == |old(names)|
      ensures idx < |names| && names[idx] == name
    {
      if name in names {
        idx := FirstIndexOf(names, name);
      } else {
        names := names + [name];
        idx := |names| - 1;
      }
    }

    /** `replaceName`: the name at index `i` becomes `newName`. */
    method ReplaceName(i: nat, newName: string)
      requires i < |names|
      modifies this
      ensures names == old(names)[i := newName]
      ensures exports == old(exports) && imports == old(imports)
    {
      names := names[i := newName];
    }

    /**
     * `AddName` as written: an empty answer does nothing; otherwise the name is
     * found or added, and the report says "added" exactly when its index is
     * the last one of the table afterwards. So a name that already sits at
     * the end of the table is reported as added.
     */
    method AddName(result: string) returns (report: AddNameReport)
      modifies this
      ensures exports == old(exports) && imports == old(imports)
      ensures report == NothingEntered <==> result == ""
      ensures result == "" ==> names == old(names)
      ensures result != "" && result in old(names) ==> names == old(names)
      ensures result != "" && result !in old(names) ==> names == old(names) + [result]
      ensures report.ReportedAdded? <==>
                result != "" && (result !in old(names) || FirstIndexOf(old(names), result) == |old(names)| - 1)
      ensures !report.NothingEntered? ==> report.index < |names| && names[report.index] == result
    {
      if result == "" {
        return NothingEntered;
      }
      var idx := FindNameOrAdd(result);
      if idx != |names| - 1 {
        report := ReportedExisting(idx);
      } else {
        report := ReportedAdded(idx);
      }
    }

    /** `AddName` as evidently intended: "added" exactly when the name was not in the table. */
    method AddNameIntended(result: string) returns (report: AddNameReport)
      modifies this
      ensures exports == old(exports) && imports == old(imports)
      ensures report == NothingEntered <==> result == ""
      ensures result == "" ==> names == old(names)
      ensures result != "" && result in old(names) ==> names == old(names)
      ensures result != "" && result !in old(names) ==> names == old(names) + [result]
      ensures report.ReportedAdded? <==> result != "" && result !in old(names)
      ensures !report.NothingEntered? ==> report.index < |names| && names[report.index] == result
    {
      if result == "" {
        return NothingEntered;
      }
      var countBefore := |names|;
      var idx := FindNameOrAdd(result);
      if |names| == countBefore {
        report := ReportedExisting(idx);
      } else {
        report := ReportedAdded(idx);
      }
    }

    /**
     * `EditName`: with a name selected (`selected` is the list's selected
     * index, -1 for none) and a non-empty answer, that name is replaced.
     */
    method EditName(selected: int, result: string)
      requires -1 <= selected < |names|
      modifies this
      ensures |names| == |old(names)| && exports == old(exports) && imports == old(imports)
      ensures forall i :: 0 <= i < |names| ==>
                names[i] == if i == selected && result != "" then result else old(names)[i]
    {
      if selected >= 0 && result != "" {
        ReplaceName(selected, result);
      }
    }

    /**
     * `SearchReplaceNames`: unless either answer is empty or the warning is
     * cancelled, every name containing `search` is rewritten with every
     * occurrence of `search` replaced by `replace`. Since a name without an
     * occurrence is its own replacement, the table ends up mapped through
     * `ReplaceAll` as a whole.
     */
    method SearchReplaceNames(search: string, replace: string, confirmed: bool)
      modifies this
      ensures exports == old(exports) && imports == old(imports)
      ensures search == "" || replace == "" || !confirmed ==> names == old(names)
      ensures search != "" && replace != "" && confirmed ==>
                && |names| == |old(names)|
                && forall i :: 0 <= i < |names| ==> names[i] == ReplaceAll(old(names)[i], search, replace)
    {
      if search == "" || replace == "" || !confirmed {
        return;
      }
      var i := 0;
      while i < |names|
        invariant 0 <= i <= |names| == |old(names)|
        invariant exports == old(exports) && imports == old(imports)
        invariant forall j :: 0 <= j < i ==> names[j] == ReplaceAll(old(names)[j], search, replace)
        invariant forall j :: i <= j < |names| ==> names[j] == old(names)[j]
      {
        var name := names[i];
        if Contains(name, search) {
          var newName := ReplaceAll(name, search, replace);
          ReplaceName(i, newName);
        } else {
          ReplaceAllWithoutOccurrence(name, search, replace);
        }
        i := i + 1;
      }
    }

    /**
     * `ReindexObjectsByName` once confirmed: walking the export table in
     * order, every export named like export `k`, under the same parent path
     * and not a class, gets the next instance number, starting at 1. The
     * target test is made on the tables as they were when the command
     * started.
     */
    method ReindexObjectsByName(k: nat)
      requires k < |exports|
      modifies this
      ensures names == old(names) && imports == old(imports) && |exports| == |old(exports)|
      ensures forall i :: 0 <= i < |exports| ==>
                var t := old(Snapshot());
                var name := old(exports[k].objectName);
                var prefix := ParentInstancedFullPath(t, k + 1);
                exports[i] == if IsReindexTarget(t, i, name, prefix)
                              then old(exports[i]).(indexValue := NumberGiven(t, name, prefix, i))
                              else old(exports[i])
      ensures Snapshot() == ReindexByName(old(Snapshot()), k)
    {
      var t := Snapshot();
      var prefix := ParentInstancedFullPath(t, k + 1);
      var name := exports[k].objectName;
      var index := 1;
      var i := 0;
      while i < |exports|
        invariant 0 <= i <= |exports| == |t.exports|
        invariant names == old(names) && imports == old(imports)
        invariant index == TargetsBelow(t, name, prefix, i) + 1
        invariant forall j :: 0 <= j < |exports| ==>
                    exports[j] == if j < i && IsReindexTarget(t, j, name, prefix)
                                  then t.exports[j].(indexValue := NumberGiven(t, name, prefix, j))
                                  else t.exports[j]
      {
        if IsReindexTarget(t, i, name, prefix) {
          exports := exports[i := exports[i].(indexValue := index)];
          index := index + 1;
        }
        i := i + 1;
      }
    }

    /**
     * `ReindexObjectByName`: `selected` is the UIndex of the selected entry.
     * Without a selected export nothing happens; an export under the trash
     * package is refused; otherwise, once confirmed, its name is reindexed.
     */
    method ReindexObjectByName(selected: int, confirmed: bool) returns (outcome: ReindexOutcome)
      modifies this
      ensures outcome == NoExportSelected <==> !(0 < selected <= |old(exports)|)
      ensures outcome == RejectedTrashed <==>
                0 < selected <= |old(exports)| && IsTrashPath(FullPath(old(Snapshot()), selected))
      ensures outcome == Reindexed <==>
                0 < selected <= |old(exports)| && !IsTrashPath(FullPath(old(Snapshot()), selected)) && confirmed
      ensures outcome != Reindexed ==> names == old(names) && exports == old(exports) && imports == old(imports)
      ensures outcome == Reindexed ==>
                && names == old(names) && imports == old(imports) && |exports| == |old(exports)|
                && forall i :: 0 <= i < |exports| ==>
                     var t := old(Snapshot());
                     var name := old(exports[selected - 1].objectName);
                     var prefix := ParentInstancedFullPath(t, selected);
                     exports[i] == if IsReindexTarget(t, i, name, prefix)
                                   then old(exports[i]).(indexValue := NumberGiven(t, name, prefix, i))
                                   else old(exports[i])
      ensures outcome == Reindexed ==> Snapshot() == ReindexByName(old(Snapshot()), selected - 1)
    {
      if !(0 < selected <= |exports|) {
        return NoExportSelected;
      }
      if IsTrashPath(FullPath(Snapshot(), selected)) {
        return RejectedTrashed;
      }
      if !confirmed {
        return Declined;
      }
      ReindexObjectsByName(selected - 1);
      outcome := Reindexed;
    }

    /**
     * `CheckForDuplicateIndexes`: reports (by UIndex, in table order) every
     * export outside the trash package whose `InstancedFullPath` an earlier
     * such export already has.
     */
    method CheckForDuplicateIndexes() returns (duplicates: seq<int>)
      ensures forall u :: u in duplicates <==>
                1 <= u <= |exports| && IsReportedDuplicate(ExportKeys(Snapshot()), u - 1)
      ensures forall p, q :: 0 <= p < q < |duplicates| ==> duplicates[p] < duplicates[q]
      ensures var keys := ExportKeys(Snapshot());
              |duplicates| + |KeysBelow(keys, |keys|)| == CountedBelow(keys, |keys|)
    {
      duplicates := DuplicatesOf(ExportKeys(Snapshot()));
    }

    /**
     * The grouping step of `ReindexDuplicateIndexes`: the first export (by
     * table position) of every group of exports outside the trash package
     * that share an `InstancedFullPath` and number more than one.
     */
    method DuplicateGroupHeads() returns (heads: seq<nat>)
      ensures heads == DuplicateHeads(Snapshot())
    {
      heads := GroupHeadsOf(ExportKeys(Snapshot()));
    }

    /** The reindexing loop of `ReindexDuplicateIndexes`: reindexes by name from each of `heads` in turn. */
    method ReindexFromEach(heads: seq<nat>)
      requires forall j :: 0 <= j < |heads| ==> heads[j] < |exports|
      modifies this
      ensures names == old(names)
      ensures Snapshot() == ReindexEach(old(Snapshot()), heads)
    {
      ghost var t := Snapshot();
      var h := 0;
      while h < |heads|
        invariant 0 <= h <= |heads|
        invariant names == old(names) && t == old(Snapshot())
        invariant Snapshot() == ReindexEach(t, heads[..h])
      {
        assert heads[..h + 1][..h] == heads[..h];
        ReindexObjectsByName(heads[h]);
        h := h + 1;
      }
      assert heads[..h] == heads;
    }

    /**
     * `ReindexDuplicateIndexes`: once confirmed, reindexes by name from the
     * first export of every duplicate group, group after group. Only
     * instance numbers change, and nothing changes without a duplicate.
     */
    method ReindexDuplicateIndexes(confirmed: bool)
      modifies this
      ensures names == old(names) && imports == old(imports) && |exports| == |old(exports)|
      ensures forall i :: 0 <= i < |exports| ==> SameButIndex(exports[i], old(exports[i]))
      ensures !confirmed ==> exports == old(exports)
      ensures (forall i :: 0 <= i < |old(exports)| ==> !IsGroupHead(ExportKeys(old(Snapshot())), i)) ==>
                exports == old(exports)
      ensures confirmed ==> Snapshot() == ReindexEach(old(Snapshot()), DuplicateHeads(old(Snapshot())))
    {
      if !confirmed {
        return;
      }
      var heads := DuplicateGroupHeads();
      assert (forall i :: 0 <= i < |exports| ==> !IsGroupHead(ExportKeys(Snapshot()), i)) ==> heads == [] by {
        if heads != [] {
          assert heads[0] in heads;
        }
      }
      ReindexFromEach(heads);
    }

    /**
     * `SetIndicesInTreeToZero`: with an entry selected in the tree and the
     * warning confirmed, every entry of the selected subtree (`flattened`,
     * its UIndices) gets instance number 0; every other entry is untouched.
     */
    method SetIndicesInTreeToZero(treeEntrySelected: bool, confirmed: bool, flattened: seq<int>)
      requires treeEntrySelected ==> forall u :: u in flattened ==> Snapshot().Has(u)
      modifies this
      ensures names == old(names) && |exports| == |old(exports)| && |imports| == |old(imports)|
      ensures forall i :: 0 <= i < |exports| ==>
                exports[i] == if treeEntrySelected && confirmed && i + 1 in flattened
                              then old(exports[i]).(indexValue := 0) else old(exports[i])
      ensures forall i :: 0 <= i < |imports| ==>
                imports[i] == if treeEntrySelected && confirmed && -(i + 1) in flattened
                              then old(imports[i]).(indexValue := 0) else old(imports[i])
    {
      if !(treeEntrySelected && confirmed) {
        return;
      }
      var k := 0;
      while k < |flattened|
        invariant 0 <= k <= |flattened|
        invariant names == old(names) && |exports| == |old(exports)| && |imports| == |old(imports)|
        invariant forall i :: 0 <= i < |exports| ==>
                    exports[i] == if i + 1 in flattened[..k] then old(exports[i]).(indexValue := 0) else old(exports[i])
        invariant forall i :: 0 <= i < |imports| ==>
                    imports[i] == if -(i + 1) in flattened[..k] then old(imports[i]).(indexValue := 0) else old(imports[i])
      {
        var u := flattened[k];
        assert u in flattened;
        if u > 0 {
          exports := exports[u - 1 := exports[u - 1].(indexValue := 0)];
        } else {
          imports := imports[-u - 1 := imports[-u - 1].(indexValue := 0)];
        }
        assert flattened[..k + 1] == flattened[..k] + [u];
        k := k + 1;
      }
      assert flattened[..k] == flattened;
    }
  }

  /**
   * The misreport of `AddName` on a concrete table: adding "A" to a table
   * whose only name is "A" leaves the table as it was, yet reports the name
   * as added.
   */
  method AddNameMisreportsExistingLastName() returns (report: AddNameReport, namesAfter: seq<string>)
    ensures namesAfter == ["A"]
    ensures report == ReportedAdded(0)
  {
    var p := new Package(["A"], [], []);
    assert FirstIndexOf(["A"], "A") == 0;
    report := p.AddName("A");
    namesAfter := p.names;
  }

  /** The intended report on the same table says the name already exists. */
  method AddNameIntendedReportsExistingLastName() returns (report: AddNameReport, namesAfter: seq<string>)
    ensures namesAfter == ["A"]
    ensures report == ReportedExisting(0)
  {
    var p := new Package(["A"], [], []);
    assert FirstIndexOf(["A"], "A") == 0;
    assert "A" in ["A"];
    report := p.AddNameIntended("A");
    namesAfter := p.names;
  }
}
