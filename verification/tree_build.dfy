/**
 * Building the entry tree from the flat tables, as the package editor does
 * when a file is loaded.
 *
 * Tree nodes live in one list addressed by slot: slot 0 is the package root,
 * slots 1..E hold the E exports in table order and slots E+1..E+I the imports.
 * A node records its UIndex, its parent slot (-1 for a node on the top level)
 * and its ordered child slots (`Sublinks`).
 */
module TreeBuild {
  import opened Entries

  datatype Forest = Forest(uIndexOf: seq<int>, parentOf: seq<int>, sublinks: seq<seq<nat>>, topLevel: seq<nat>)

  datatype BuildResult = Built(forest: Forest) | BadLink(slot: nat, link: int)

  /**
   * Parent and child lists agree: every node except the root has a parent slot
   * inside the list, and each node appears in its parent's children exactly
   * once and in no other node's children.
   */
  ghost predicate WellLinked(parentOf: seq<int>, sublinks: seq<seq<nat>>)
  {
    && |parentOf| == |sublinks| >= 1
    && parentOf[0] == -1
    && (forall c :: 1 <= c < |parentOf| ==> 0 <= parentOf[c] < |parentOf|)
    && (forall p: int, c: nat :: 0 <= p < |sublinks| ==>
          multiset(sublinks[p])[c] == if 1 <= c < |parentOf| && parentOf[c] == p then 1 else 0)
  }

  /** The slot a raw parent link is looked up at: `idxLink`, or `Exports.Count + |idxLink|` when negative. */
  function TreeSlot(link: int, exportCount: nat): nat
  {
    if link < 0 then exportCount + -link else link
  }

  /** The UIndex of the entry placed at slot `s`. */
  function SlotUIndex(s: nat, exportCount: nat): int
  {
    if s <= exportCount then s else -(s - exportCount)
  }

  /** A link that names an existing entry (or the root) is looked up at that entry's own slot. */
  lemma TreeSlotNamesLinkedEntry(t: Tables, link: int)
    requires link == 0 || t.Has(link)
    ensures TreeSlot(link, |t.exports|) <= t.Count()
    ensures SlotUIndex(TreeSlot(link, |t.exports|), |t.exports|) == link
  {
  }

  /**
   * A positive link past the end of the export table is not rejected: it is
   * looked up in the import part of the slot list, so the entry is attached
   * under an import whose UIndex is not its link.
   */
  lemma ExportLinkPastTableLandsOnImport(t: Tables, link: int)
    requires |t.exports| < link <= t.Count()
    ensures !t.Has(link)
    ensures TreeSlot(link, |t.exports|) <= t.Count()
    ensures SlotUIndex(TreeSlot(link, |t.exports|), |t.exports|) == -(link - |t.exports|)
  {
  }

  /** The entry placed at slot `s` (1 <= s <= Count). */
  function EntryAt(t: Tables, s: nat): Entry
    requires 1 <= s <= t.Count()
  {
    if s <= |t.exports| then t.exports[s - 1] else t.imports[s - |t.exports| - 1]
  }

  function LinkSlotAt(t: Tables, s: nat): nat
    requires 1 <= s <= t.Count()
  {
    TreeSlot(EntryAt(t, s).idxLink, |t.exports|)
  }

  /** The slots 1..k-1 whose parent slot is `p`, in ascending order. */
  function ChildrenBelow(parents: seq<int>, p: int, k: nat): seq<nat>
    requires k <= |parents|
    decreases k
  {
    if k <= 1 then [] else ChildrenBelow(parents, p, k - 1) + (if parents[k - 1] == p then [k - 1] else [])
  }

  /** Each slot below `k` is listed under its own parent exactly once and nowhere else. */
  lemma {:induction false} ChildrenBelowExactlyOnce(parents: seq<int>, p: int, k: nat, c: nat)
    requires k <= |parents|
    ensures multiset(ChildrenBelow(parents, p, k))[c] == if 1 <= c < k && parents[c] == p then 1 else 0
    decreases k
  {
    if k > 1 {
      ChildrenBelowExactlyOnce(parents, p, k - 1, c);
    }
  }

  /** The children lists are strictly ascending, hence free of repeats. */
  lemma {:induction false} ChildrenBelowAscending(parents: seq<int>, p: int, k: nat)
    requires k <= |parents|
    ensures forall i, j :: 0 <= i < j < |ChildrenBelow(parents, p, k)| ==>
              ChildrenBelow(parents, p, k)[i] < ChildrenBelow(parents, p, k)[j]
    ensures forall i :: 0 <= i < |ChildrenBelow(parents, p, k)| ==> 1 <= ChildrenBelow(parents, p, k)[i] < k
    decreases k
  {
    if k > 1 {
      ChildrenBelowAscending(parents, p, k - 1);
    }
  }

  /** Child lists built from parent slots that all lie inside the list are well linked. */
  lemma ChildListsWellLinked(parents: seq<int>, sublinks: seq<seq<nat>>)
    requires |parents| == |sublinks| >= 1 && parents[0] == -1
    requires forall c :: 1 <= c < |parents| ==> 0 <= parents[c] < |parents|
    requires forall p :: 0 <= p < |sublinks| ==> sublinks[p] == ChildrenBelow(parents, p, |parents|)
    ensures WellLinked(parents, sublinks)
  {
    forall p: int, c: nat | 0 <= p < |sublinks|
      ensures multiset(sublinks[p])[c] == if 1 <= c < |parents| && parents[c] == p then 1 else 0
    {
      ChildrenBelowExactlyOnce(parents, p, |parents|, c);
    }
  }

  /** The parent slot of every slot, as the tree build assigns it (-1 for the root). */
  function ParentSlots(t: Tables): (r: seq<int>)
    ensures |r| == t.Count() + 1
  {
    seq(t.Count() + 1, s requires 0 <= s <= t.Count() => if s == 0 then -1 else LinkSlotAt(t, s))
  }

  /**
   * `InitializeTreeViewBackground`: lays the nodes out as root, exports,
   * imports; attaches every entry under the node at its link's slot, in slot
   * order, and takes it off the top level. A link whose slot is outside the
   * list makes the lookup `rootNodes[tvLink]` fail; the build then stops at the
   * first such slot.
   */
  method BuildTree(t: Tables) returns (r: BuildResult)
    ensures r.Built? <==> forall s :: 1 <= s <= t.Count() ==> LinkSlotAt(t, s) <= t.Count()
    ensures r.BadLink? ==> 1 <= r.slot <= t.Count() && LinkSlotAt(t, r.slot) > t.Count()
                           && r.link == EntryAt(t, r.slot).idxLink
                           && forall s :: 1 <= s < r.slot ==> LinkSlotAt(t, s) <= t.Count()
    ensures r.Built? ==>
              var f := r.forest;
              && f.uIndexOf == seq(t.Count() + 1, s requires 0 <= s <= t.Count() => SlotUIndex(s, |t.exports|))
              && f.parentOf == ParentSlots(t)
              && f.topLevel == [0]
              && WellLinked(f.parentOf, f.sublinks)
              && (forall p :: 0 <= p < |f.sublinks| ==> f.sublinks[p] == ChildrenBelow(f.parentOf, p, |f.parentOf|))
  {
    var n := t.Count() + 1;
    ghost var parents := ParentSlots(t);
    var uIndexOf := seq(n, s requires 0 <= s < n => SlotUIndex(s, |t.exports|));
    var parentOf: seq<int> := [-1];
    var sublinks: seq<seq<nat>> := seq(n, _ => []);
    var s := 1;
    while s < n
      invariant 1 <= s <= n
      invariant |sublinks| == n && |parentOf| == s
      invariant parentOf == parents[..s]
      invariant forall q :: 1 <= q < s ==> LinkSlotAt(t, q) <= t.Count()
      invariant forall p :: 0 <= p < n ==> sublinks[p] == ChildrenBelow(parents, p, s)
    {
      var e := if s <= |t.exports| then t.exports[s - 1] else t.imports[s - |t.exports| - 1];
      var tvLink := e.idxLink;
      if tvLink < 0 {
        tvLink := |t.exports| + -tvLink;
      }
      assert tvLink == LinkSlotAt(t, s) == parents[s];
      if tvLink >= n {
        return BadLink(s, e.idxLink);
      }
      forall p | 0 <= p < n
        ensures ChildrenBelow(parents, p, s + 1) == ChildrenBelow(parents, p, s) + (if tvLink == p then [s] else [])
      {
      }
      sublinks := sublinks[tvLink := sublinks[tvLink] + [s]];
      parentOf := parentOf + [tvLink];
      s := s + 1;
    }
    assert parentOf == parents;
    ChildListsWellLinked(parents, sublinks);
    r := Built(Forest(uIndexOf, parentOf, sublinks, [0]));
  }
}
