/**
 * The editor's live entry tree and its incremental maintenance when the
 * package reports added entries or changed headers (`handleUpdate`).
 *
 * Nodes are kept in one list addressed by node number (node 0 is the package
 * root). Each node records the UIndex of its entry, the number of its parent
 * node and its ordered children (`Sublinks`). The UIndex-to-node dictionary
 * the update builds is a `map<int, nat>`.
 */
module EntryTrees {
  import opened Entries
  import opened TreeBuild

  /** An entry announced as added: its UIndex and its raw parent link. */
  datatype AddedEntry = AddedEntry(uIndex: int, idxLink: int)

  /** `List.Remove`: drops the first occurrence of `x`, if there is one. */
  function RemoveFirst(s: seq<nat>, x: nat): (r: seq<nat>)
    ensures x in s ==> multiset(r) == multiset(s) - multiset{x}
    ensures x !in s ==> r == s
  {
    if s == [] then []
    else if s[0] == x then
      assert s == [s[0]] + s[1..];
      s[1..]
    else
      assert s == [s[0]] + s[1..];
      [s[0]] + RemoveFirst(s[1..], x)
  }

  /** The added entries whose UIndex no node of the tree carries yet, in their original order. */
  function NotYetInTree(added: seq<AddedEntry>, nodes: seq<int>): (r: seq<AddedEntry>)
    ensures forall a :: a in r <==> a in added && a.uIndex !in nodes
    ensures |r| <= |added|
  {
    if added == [] then []
    else
      var last := added[|added| - 1];
      NotYetInTree(added[..|added| - 1], nodes) + (if last.uIndex !in nodes then [last] else [])
  }

  /** Appending a fresh node under `p` keeps parents and children in agreement. */
  lemma AppendChildKeepsWellLinked(parentOf: seq<int>, sublinks: seq<seq<nat>>, p: nat)
    requires WellLinked(parentOf, sublinks) && p < |parentOf|
    ensures WellLinked(parentOf + [p], sublinks[p := sublinks[p] + [|parentOf|]] + [[]])
  {
    var n := |parentOf|;
    var parentOf' := parentOf + [p];
    var sublinks' := sublinks[p := sublinks[p] + [n]] + [[]];
    forall q: int, c: nat | 0 <= q < |sublinks'|
      ensures multiset(sublinks'[q])[c] == if 1 <= c < |parentOf'| && parentOf'[c] == q then 1 else 0
    {
      if q < n {
        OldChildCount(parentOf, sublinks, q, c);
        if q == p {
          assert sublinks'[q] == sublinks[q] + [n];
        } else {
          assert sublinks'[q] == sublinks[q];
        }
      } else {
        assert sublinks'[q] == [];
      }
    }
  }

  lemma OldChildCount(parentOf: seq<int>, sublinks: seq<seq<nat>>, q: int, c: nat)
    requires WellLinked(parentOf, sublinks) && 0 <= q < |sublinks|
    ensures multiset(sublinks[q])[c] == if 1 <= c < |parentOf| && parentOf[c] == q then 1 else 0
  {
  }

  /** Moving node `c` from its parent to `q` (remove, then add) keeps parents and children in agreement. */
  lemma MoveChildKeepsWellLinked(parentOf: seq<int>, sublinks: seq<seq<nat>>, c: nat, q: nat)
    requires WellLinked(parentOf, sublinks) && 1 <= c < |parentOf| && q < |parentOf|
    ensures var from := parentOf[c];
            var removed := sublinks[from := RemoveFirst(sublinks[from], c)];
            WellLinked(parentOf[c := q], removed[q := removed[q] + [c]])
  {
    var from := parentOf[c];
    var removed := sublinks[from := RemoveFirst(sublinks[from], c)];
    var sublinks' := removed[q := removed[q] + [c]];
    var parentOf' := parentOf[c := q];
    forall p: int, d: nat | 0 <= p < |sublinks'|
      ensures multiset(sublinks'[p])[d] == if 1 <= d < |parentOf'| && parentOf'[d] == p then 1 else 0
    {
      MovedChildCount(parentOf, sublinks, c, q, p, d);
    }
    assert parentOf'[0] == -1;
    assert forall d :: 1 <= d < |parentOf'| ==> 0 <= parentOf'[d] < |parentOf'|;
  }

  /** One count of the move: node `d` is listed under `p` once exactly when `p` is its new parent. */
  lemma MovedChildCount(parentOf: seq<int>, sublinks: seq<seq<nat>>, c: nat, q: nat, p: int, d: nat)
    requires WellLinked(parentOf, sublinks) && 1 <= c < |parentOf| && q < |parentOf| && 0 <= p < |sublinks|
    ensures var from := parentOf[c];
            var removed := sublinks[from := RemoveFirst(sublinks[from], c)];
            multiset(removed[q := removed[q] + [c]][p])[d]
              == if 1 <= d < |parentOf| && parentOf[c := q][d] == p then 1 else 0
  {
    var from := parentOf[c];
    OldChildCount(parentOf, sublinks, p, d);
    var removed := sublinks[from := RemoveFirst(sublinks[from], c)];
    var before := removed[p];
    if p == from {
      OldChildCount(parentOf, sublinks, from, c);
      assert c in multiset(sublinks[from]);
      assert multiset(before) == multiset(sublinks[from]) - multiset{c};
      if d == c {
        assert multiset(before)[d] == 0;
      } else {
        assert multiset(before)[d] == multiset(sublinks[p])[d];
      }
    } else {
      assert before == sublinks[p];
    }
    assert multiset(before)[d] == if 1 <= d < |parentOf| && parentOf[d] == p && d != c then 1 else 0;
    if p == q {
      assert removed[q := removed[q] + [c]][p] == before + [c];
      assert multiset(before + [c]) == multiset(before) + multiset{c};
    } else {
      assert removed[q := removed[q] + [c]][p] == before;
    }
  }

  /**
   * The parent node `n` ends up under after a header-change pass: a changed
   * node whose parent's UIndex differs from its entry's current link moves to
   * the node the dictionary holds for that link, if it holds one.
   */
  function ReparentTarget(uIndexOf: seq<int>, parentOf: seq<int>, n: nat, changed: set<int>,
                          linkOf: int -> int, m: map<int, nat>): int
    requires n < |uIndexOf| == |parentOf|
    requires 1 <= n ==> 0 <= parentOf[n] < |parentOf|
  {
    var u := uIndexOf[n];
    if n >= 1 && u != 0 && u in changed && u in m && m[u] == n
       && uIndexOf[parentOf[n]] != linkOf(u) && linkOf(u) in m
    then m[linkOf(u)]
    else parentOf[n]
  }

  /** The UIndices of the given added entries, in order. */
  function UIndicesOf(entries: seq<AddedEntry>): (r: seq<int>)
    ensures |r| == |entries|
    ensures forall i :: 0 <= i < |entries| ==> r[i] == entries[i].uIndex
  {
    seq(|entries|, i requires 0 <= i < |entries| => entries[i].uIndex)
  }

  /**
   * The node lists `u`/`p` are `u0`/`p0` followed by one node per entry of
   * `entries`, in that order; the old nodes keep their parents and each new
   * node hangs under a node carrying its entry's parent link.
   */
  ghost predicate Extended(u0: seq<int>, p0: seq<int>, u: seq<int>, p: seq<int>, entries: seq<AddedEntry>)
  {
    && |u0| == |p0| && |u| == |p|
    && u == u0 + UIndicesOf(entries)
    && p[..|p0|] == p0
    && forall n :: |p0| <= n < |p| ==> 0 <= p[n] < |u| && u[p[n]] == entries[n - |p0|].idxLink
  }

  /** The dictionary holds the keys of `m0` and the UIndices of `entries`, and nothing else. */
  ghost predicate KeysGrown(m0: map<int, nat>, m: map<int, nat>, entries: seq<AddedEntry>)
  {
    forall u :: u in m <==> u in m0 || u in UIndicesOf(entries)
  }

  /** Every key of the dictionary maps to a node carrying that UIndex. */
  ghost predicate MapsInto(m: map<int, nat>, uIndexOf: seq<int>)
  {
    forall u :: u in m ==> m[u] < |uIndexOf| && uIndexOf[m[u]] == u
  }

  lemma ExtendedByNothing(u: seq<int>, p: seq<int>, m: map<int, nat>)
    requires |u| == |p|
    ensures Extended(u, p, u, p, []) && KeysGrown(m, m, [])
  {
    assert u == u + UIndicesOf([]);
  }

  /**
   * Attaching `entry` under the node the dictionary holds for its link, and
   * recording the new node in the dictionary, extends the run by one.
   */
  lemma ExtendedStep(u0: seq<int>, p0: seq<int>, u: seq<int>, p: seq<int>, done: seq<AddedEntry>,
                     m0: map<int, nat>, m: map<int, nat>, entry: AddedEntry)
    requires Extended(u0, p0, u, p, done) && KeysGrown(m0, m, done) && MapsInto(m, u)
    requires entry.idxLink in m
    ensures var u' := u + [entry.uIndex];
            var p' := p + [m[entry.idxLink]];
            var m' := m[entry.uIndex := |u|];
            && Extended(u0, p0, u', p', done + [entry])
            && KeysGrown(m0, m', done + [entry])
            && MapsInto(m', u')
  {
    var parent := m[entry.idxLink];
    var u' := u + [entry.uIndex];
    var p' := p + [parent];
    var e' := done + [entry];
    assert UIndicesOf(e') == UIndicesOf(done) + [entry.uIndex];
    assert p'[..|p0|] == p[..|p0|];
    forall n | |p0| <= n < |p'|
      ensures 0 <= p'[n] < |u'| && u'[p'[n]] == e'[n - |p0|].idxLink
    {
      if n < |p| {
        assert p'[n] == p[n];
        assert u'[p[n]] == u[p[n]];
      } else {
        assert p'[n] == parent;
      }
    }
  }

  /** Two runs of attached nodes, one after the other, form one run. */
  lemma ExtendedTrans(u0: seq<int>, p0: seq<int>, u1: seq<int>, p1: seq<int>, u2: seq<int>, p2: seq<int>,
                      m0: map<int, nat>, m1: map<int, nat>, m2: map<int, nat>,
                      e1: seq<AddedEntry>, e2: seq<AddedEntry>)
    requires Extended(u0, p0, u1, p1, e1) && KeysGrown(m0, m1, e1)
    requires Extended(u1, p1, u2, p2, e2) && KeysGrown(m1, m2, e2)
    ensures Extended(u0, p0, u2, p2, e1 + e2) && KeysGrown(m0, m2, e1 + e2)
  {
    assert UIndicesOf(e1 + e2) == UIndicesOf(e1) + UIndicesOf(e2);
    assert p2[..|p0|] == p2[..|p1|][..|p0|];
    forall n | |p0| <= n < |p2|
      ensures 0 <= p2[n] < |u2| && u2[p2[n]] == (e1 + e2)[n - |p0|].idxLink
    {
      if n < |p1| {
        assert p2[n] == p2[..|p1|][n] == p1[n];
        assert u2[p1[n]] == u1[p1[n]];
      } else {
        assert (e1 + e2)[n - |p0|] == e2[n - |p1|];
      }
    }
  }

  /** Sending the next pending entry to either side keeps the two sides a split of what was seen. */
  lemma SplitStep(pending: seq<AddedEntry>, j: nat, done: seq<AddedEntry>, kept: seq<AddedEntry>)
    requires j < |pending| && multiset(done) + multiset(kept) == multiset(pending[..j])
    ensures multiset(done + [pending[j]]) + multiset(kept) == multiset(pending[..j + 1])
    ensures multiset(done) + multiset(kept + [pending[j]]) == multiset(pending[..j + 1])
  {
    assert pending[..j + 1] == pending[..j] + [pending[j]];
  }

  /** No other node carries node `n`'s UIndex. */
  ghost predicate OnlyNodeCarrying(uIndexOf: seq<int>, n: nat)
    requires n < |uIndexOf|
  {
    forall k :: 0 <= k < |uIndexOf| && k != n ==> uIndexOf[k] != uIndexOf[n]
  }

  /** Every node of the extended list has its UIndex in the grown dictionary. */
  lemma NodesKeyed(u0: seq<int>, u: seq<int>, attached: seq<AddedEntry>, m0: map<int, nat>, m: map<int, nat>)
    requires u == u0 + UIndicesOf(attached) && KeysGrown(m0, m, attached)
    requires forall n :: 0 <= n < |u0| ==> u0[n] in m0
    ensures forall n :: 0 <= n < |u| ==> u[n] in m
  {
    forall n | 0 <= n < |u|
      ensures u[n] in m
    {
      if n < |u0| {
        assert u[n] == u0[n];
      } else {
        assert u[n] == UIndicesOf(attached)[n - |u0|];
      }
    }
  }

  /** An entry whose link the dictionary lacks has no node carrying its link. */
  lemma OrphansHaveNoNode(u: seq<int>, orphans: seq<AddedEntry>, m: map<int, nat>)
    requires forall n :: 0 <= n < |u| ==> u[n] in m
    requires forall o :: o in orphans ==> o.idxLink !in m
    ensures forall o :: o in orphans ==> o.idxLink !in u
  {
  }

  /**
   * After an update that extended `u0`/`p0` by `attached`: every old node
   * whose header did not change keeps its parent, and every attached entry
   * whose header did not change hangs under a node carrying its link.
   */
  ghost predicate UnchangedKeepPlaces(u0: seq<int>, p0: seq<int>, u: seq<int>, p: seq<int>,
                                      attached: seq<AddedEntry>, changed: set<int>)
  {
    && 1 <= |u0| <= |p0| && |u0| + |attached| <= |u| == |p|
    && (forall n :: 1 <= n < |p| ==> 0 <= p[n] < |p|)
    && (forall n :: 0 <= n < |u0| && u[n] !in changed ==> p[n] == p0[n])
    && (forall i :: 0 <= i < |attached| && attached[i].uIndex !in changed ==> u[p[|u0| + i]] == attached[i].idxLink)
  }

  /**
   * Every changed node that is the only one carrying its UIndex, and whose
   * new link some node carries, hangs under a node carrying that link.
   */
  ghost predicate ChangedFollowLinks(u: seq<int>, p: seq<int>, changed: set<int>, linkOf: int -> int)
  {
    && |u| == |p|
    && (forall n :: 1 <= n < |p| ==> 0 <= p[n] < |p|)
    && (forall n :: 1 <= n < |u| && u[n] != 0 && u[n] in changed && OnlyNodeCarrying(u, n) && linkOf(u[n]) in u
          ==> u[p[n]] == linkOf(u[n]))
  }

  lemma UnchangedNodesKeepParents(u0: seq<int>, p0: seq<int>, u: seq<int>, mid: seq<int>, p: seq<int>,
                                  attached: seq<AddedEntry>, changed: set<int>, linkOf: int -> int, m: map<int, nat>)
    requires Extended(u0, p0, u, mid, attached) && |u0| >= 1
    requires forall n :: 1 <= n < |mid| ==> 0 <= mid[n] < |mid|
    requires |p| == |mid| && forall n :: 0 <= n < |p| ==> p[n] == ReparentTarget(u, mid, n, changed, linkOf, m)
    requires forall n :: 1 <= n < |p| ==> 0 <= p[n] < |p|
    ensures UnchangedKeepPlaces(u0, p0, u, p, attached, changed)
  {
    forall n | 0 <= n < |u0| && u[n] !in changed
      ensures p[n] == p0[n]
    {
      assert p[n] == mid[n] == mid[..|p0|][n];
    }
    forall i | 0 <= i < |attached| && attached[i].uIndex !in changed
      ensures u[p[|u0| + i]] == attached[i].idxLink
    {
      var n := |u0| + i;
      assert u[n] == UIndicesOf(attached)[i] == attached[i].uIndex;
      assert p[n] == mid[n];
    }
  }

  /**
   * A changed node that is the only one carrying its UIndex, and whose new
   * link some node carries, ends up under a node carrying that link.
   */
  lemma ChangedOnlyNodesFollowLinks(u: seq<int>, p: seq<int>, changed: set<int>, linkOf: int -> int, m: map<int, nat>)
    requires MapsInto(m, u) && forall n :: 0 <= n < |u| ==> u[n] in m
    requires |p| == |u| && forall n :: 1 <= n < |p| ==> 0 <= p[n] < |p|
    requires forall n :: 1 <= n < |p| && u[n] != 0 && u[n] in changed && u[n] in m && m[u[n]] == n && linkOf(u[n]) in m
               ==> u[p[n]] == linkOf(u[n])
    ensures ChangedFollowLinks(u, p, changed, linkOf)
  {
    forall n | 1 <= n < |u| && u[n] != 0 && u[n] in changed && OnlyNodeCarrying(u, n) && linkOf(u[n]) in u
      ensures u[p[n]] == linkOf(u[n])
    {
      assert u[m[u[n]]] == u[n];
      var k :| 0 <= k < |u| && u[k] == linkOf(u[n]);
      assert u[k] in m;
    }
  }

  class EntryTree {
    var uIndexOf: seq<int>
    var parentOf: seq<int>
    var sublinks: seq<seq<nat>>

    ghost predicate Valid()
      reads this
    {
      WellLinked(parentOf, sublinks) && |uIndexOf| == |parentOf| && uIndexOf[0] == 0
    }

    /** The dictionary maps every key to a node carrying that UIndex. */
    ghost predicate MapsToNodes(m: map<int, nat>)
      reads this
    {
      MapsInto(m, uIndexOf)
    }

    /** The tree as `InitializeTreeViewBackground` produced it. */
    constructor (f: Forest)
      requires WellLinked(f.parentOf, f.sublinks) && |f.uIndexOf| == |f.parentOf| && f.uIndexOf[0] == 0
      ensures Valid()
      ensures uIndexOf == f.uIndexOf && parentOf == f.parentOf && sublinks == f.sublinks
    {
      uIndexOf := f.uIndexOf;
      parentOf := f.parentOf;
      sublinks := f.sublinks;
    }

    /** `uindexMap[tv.UIndex] = tv` over every node: each UIndex maps to the last node carrying it. */
    method BuildUIndexMap() returns (m: map<int, nat>)
      requires Valid()
      ensures MapsToNodes(m)
      ensures forall n :: 0 <= n < |uIndexOf| ==> uIndexOf[n] in m
      ensures forall n :: 0 <= n < |uIndexOf| ==> m[uIndexOf[n]] >= n
    {
      m := map[];
      for n := 0 to |uIndexOf|
        invariant MapsToNodes(m)
        invariant forall k :: 0 <= k < n ==> uIndexOf[k] in m && k <= m[uIndexOf[k]] < n
        invariant forall u :: u in m ==> m[u] < n
      {
        m := m[uIndexOf[n] := n];
      }
    }

    /** Creates a node for entry `u` and appends it to `parent`'s children. */
    method AttachNode(u: int, parent: nat) returns (node: nat)
      requires Valid() && parent < |parentOf|
      modifies this
      ensures Valid()
      ensures node == old(|parentOf|)
      ensures uIndexOf == old(uIndexOf) + [u] && parentOf == old(parentOf) + [parent]
    {
      node := |parentOf|;
      AppendChildKeepsWellLinked(parentOf, sublinks, parent);
      sublinks := sublinks[parent := sublinks[parent] + [node]] + [[]];
      parentOf := parentOf + [parent];
      uIndexOf := uIndexOf + [u];
    }

    /**
     * One pass of the attach loop: in list order, an entry whose parent link
     * is in the dictionary gets a node under that parent and is recorded in the
     * dictionary; the others are kept for the next pass.
     */
    method AttachPass(pending: seq<AddedEntry>, m: map<int, nat>)
      returns (attachedNow: seq<AddedEntry>, kept: seq<AddedEntry>, m': map<int, nat>)
      requires Valid() && MapsToNodes(m)
      modifies this
      ensures Valid() && MapsToNodes(m')
      ensures Extended(old(uIndexOf), old(parentOf), uIndexOf, parentOf, attachedNow)
      ensures KeysGrown(m, m', attachedNow)
      ensures multiset(attachedNow) + multiset(kept) == multiset(pending)
      ensures attachedNow == [] ==> m' == m
      ensures forall o :: o in kept ==> o.idxLink !in m
    {
      ghost var u0, p0 := uIndexOf, parentOf;
      attachedNow, kept, m' := [], [], m;
      ExtendedByNothing(uIndexOf, parentOf, m);
      for j := 0 to |pending|
        invariant Valid() && MapsToNodes(m')
        invariant Extended(u0, p0, uIndexOf, parentOf, attachedNow) && KeysGrown(m, m', attachedNow)
        invariant multiset(attachedNow) + multiset(kept) == multiset(pending[..j])
        invariant attachedNow == [] ==> m' == m
        invariant forall o :: o in kept ==> o.idxLink !in m
      {
        var entry := pending[j];
        SplitStep(pending, j, attachedNow, kept);
        if entry.idxLink in m' {
          var parent := m'[entry.idxLink];
          ExtendedStep(u0, p0, uIndexOf, parentOf, attachedNow, m, m', entry);
          var node := AttachNode(entry.uIndex, parent);
          attachedNow := attachedNow + [entry];
          m' := m'[entry.uIndex := node];
        } else {
          kept := kept + [entry];
        }
      }
      assert pending[..|pending|] == pending;
    }

    /** The added entries that no node carries yet (`!uindexMap.ContainsKey(e.UIndex)`), in list order. */
    method EntriesNotInTree(added: seq<AddedEntry>) returns (toAdd: seq<AddedEntry>)
      ensures toAdd == NotYetInTree(added, uIndexOf)
    {
      toAdd := [];
      for i := 0 to |added|
        invariant toAdd == NotYetInTree(added[..i], uIndexOf)
      {
        assert added[..i + 1][..i] == added[..i];
        if added[i].uIndex !in uIndexOf {
          toAdd := toAdd + [added[i]];
        }
      }
      assert added[..|added|] == added;
    }

    /**
     * The attach loop of `handleUpdate`: passes over the pending entries until
     * none is left or a pass attaches nothing; what that pass kept are the
     * orphans.
     */
    method AttachRounds(toAdd: seq<AddedEntry>, uindexMap: map<int, nat>)
      returns (attached: seq<AddedEntry>, orphans: seq<AddedEntry>, passes: nat, finalMap: map<int, nat>)
      requires Valid() && MapsToNodes(uindexMap)
      modifies this
      ensures Valid() && MapsToNodes(finalMap)
      ensures Extended(old(uIndexOf), old(parentOf), uIndexOf, parentOf, attached)
      ensures KeysGrown(uindexMap, finalMap, attached)
      ensures multiset(attached) + multiset(orphans) == multiset(toAdd)
      ensures forall o :: o in orphans ==> o.idxLink !in finalMap
      ensures passes <= |toAdd|
    {
      ghost var u0, p0 := uIndexOf, parentOf;
      finalMap := uindexMap;
      attached, orphans, passes := [], [], 0;
      ExtendedByNothing(uIndexOf, parentOf, uindexMap);
      var entriesToAdd := toAdd;
      while |entriesToAdd| > 0
        invariant Valid() && MapsToNodes(finalMap)
        invariant Extended(u0, p0, uIndexOf, parentOf, attached) && KeysGrown(uindexMap, finalMap, attached)
        invariant multiset(attached) + multiset(entriesToAdd) == multiset(toAdd)
        invariant passes + |entriesToAdd| <= |toAdd|
        invariant orphans == []
        decreases |entriesToAdd|
      {
        ghost var u1, p1, m1 := uIndexOf, parentOf, finalMap;
        var attachedNow, kept;
        attachedNow, kept, finalMap := AttachPass(entriesToAdd, finalMap);
        passes := passes + 1;
        if attachedNow == [] {
          orphans := kept;
          break;
        }
        ExtendedTrans(u0, p0, u1, p1, uIndexOf, parentOf, uindexMap, m1, finalMap, attached, attachedNow);
        assert |attachedNow| + |kept| == |entriesToAdd| by {
          assert |multiset(attachedNow) + multiset(kept)| == |multiset(entriesToAdd)|;
        }
        attached := attached + attachedNow;
        entriesToAdd := kept;
      }
    }

    /**
     * The attaching part of `handleUpdate`: drops the added entries that
     * already have a node, then runs the attach loop on the rest.
     */
    method AttachAddedEntries(added: seq<AddedEntry>, uindexMap: map<int, nat>)
      returns (attached: seq<AddedEntry>, orphans: seq<AddedEntry>, passes: nat, finalMap: map<int, nat>)
      requires Valid() && MapsToNodes(uindexMap)
      modifies this
      ensures Valid() && MapsToNodes(finalMap)
      ensures Extended(old(uIndexOf), old(parentOf), uIndexOf, parentOf, attached)
      ensures KeysGrown(uindexMap, finalMap, attached)
      ensures multiset(attached) + multiset(orphans) == multiset(NotYetInTree(added, old(uIndexOf)))
      ensures forall o :: o in orphans ==> o.idxLink !in finalMap
      ensures passes <= |NotYetInTree(added, old(uIndexOf))|
    {
      var toAdd := EntriesNotInTree(added);
      attached, orphans, passes, finalMap := AttachRounds(toAdd, uindexMap);
    }

    /**
     * The header-change part of `handleUpdate`: each node that the dictionary
     * holds for a changed UIndex, and whose parent's UIndex is no longer its
     * entry's link, is removed from its parent's children and appended to the
     * children of the node the dictionary holds for the new link. When the
     * dictionary has no node for the new link the node stays where it is.
     */
    method ReparentChangedHeaders(changed: set<int>, linkOf: int -> int, uindexMap: map<int, nat>)
      requires Valid() && MapsToNodes(uindexMap)
      modifies this
      ensures Valid()
      ensures uIndexOf == old(uIndexOf)
      ensures |parentOf| == |old(parentOf)|
      ensures forall n :: 0 <= n < |parentOf| ==>
                parentOf[n] == ReparentTarget(old(uIndexOf), old(parentOf), n, changed, linkOf, uindexMap)
      ensures forall n :: 1 <= n < |parentOf| && uIndexOf[n] != 0 && uIndexOf[n] in changed
                && uIndexOf[n] in uindexMap && uindexMap[uIndexOf[n]] == n && linkOf(uIndexOf[n]) in uindexMap
                ==> uIndexOf[parentOf[n]] == linkOf(uIndexOf[n])
    {
      ghost var before := parentOf;
      for n := 1 to |parentOf|
        invariant Valid() && MapsToNodes(uindexMap)
        invariant uIndexOf == old(uIndexOf) && |parentOf| == |before|
        invariant forall k :: 0 <= k < n ==> parentOf[k] == ReparentTarget(uIndexOf, before, k, changed, linkOf, uindexMap)
        invariant forall k :: n <= k < |parentOf| ==> parentOf[k] == before[k]
      {
        ghost var current := parentOf;
        ReparentNode(n, changed, linkOf, uindexMap);
        assert ReparentTarget(uIndexOf, current, n, changed, linkOf, uindexMap)
            == ReparentTarget(uIndexOf, before, n, changed, linkOf, uindexMap);
      }
    }

    /** One step of the header pass: node `n` moves under `ReparentTarget` of it when that differs. */
    method ReparentNode(n: nat, changed: set<int>, linkOf: int -> int, uindexMap: map<int, nat>)
      requires Valid() && MapsToNodes(uindexMap) && 1 <= n < |parentOf|
      modifies this
      ensures Valid()
      ensures uIndexOf == old(uIndexOf)
      ensures parentOf == old(parentOf)[n := ReparentTarget(uIndexOf, old(parentOf), n, changed, linkOf, uindexMap)]
    {
      var u := uIndexOf[n];
      if u != 0 && u in changed && u in uindexMap && uindexMap[u] == n {
        var link := linkOf(u);
        if uIndexOf[parentOf[n]] != link && link in uindexMap {
          var newParent := uindexMap[link];
          var from := parentOf[n];
          MoveChildKeepsWellLinked(parentOf, sublinks, n, newParent);
          var removed := sublinks[from := RemoveFirst(sublinks[from], n)];
          sublinks := removed[newParent := removed[newParent] + [n]];
          parentOf := parentOf[n := newParent];
        }
      }
    }

    /**
     * `handleUpdate` on the tree: builds the UIndex dictionary, attaches the
     * added entries, then moves the nodes whose headers changed, looking new
     * parents up in the dictionary as the attaching left it. Nodes whose
     * header did not change keep their place; a changed node that is the only
     * one carrying its UIndex ends up under a node carrying its new link
     * whenever the tree has one.
     */
    method HandleUpdate(added: seq<AddedEntry>, changed: set<int>, linkOf: int -> int)
      returns (attached: seq<AddedEntry>, orphans: seq<AddedEntry>)
      requires Valid()
      modifies this
      ensures Valid()
      ensures uIndexOf == old(uIndexOf) + UIndicesOf(attached)
      ensures multiset(attached) + multiset(orphans) == multiset(NotYetInTree(added, old(uIndexOf)))
      ensures forall o :: o in orphans ==> o.idxLink !in uIndexOf
      ensures UnchangedKeepPlaces(old(uIndexOf), old(parentOf), uIndexOf, parentOf, attached, changed)
      ensures ChangedFollowLinks(uIndexOf, parentOf, changed, linkOf)
    {
      ghost var u0, p0 := uIndexOf, parentOf;
      var finalMap;
      attached, orphans, finalMap := AttachForUpdate(added);
      ReparentForUpdate(u0, p0, attached, changed, linkOf, finalMap);
    }

    /**
     * `handleUpdate` on a batch that removes an export or an import: the live
     * tree is thrown away and built afresh from the package's tables `t`, as
     * `InitializeTreeViewBackground` builds it. A build that fails on a link
     * outside the tables produces no tree, and the current one stays.
     */
    method Rebuild(t: Tables) returns (r: BuildResult)
      requires Valid()
      modifies this
      ensures Valid()
      ensures r.Built? <==> forall s :: 1 <= s <= t.Count() ==> LinkSlotAt(t, s) <= t.Count()
      ensures r.Built? ==>
                && uIndexOf == seq(t.Count() + 1, s requires 0 <= s <= t.Count() => SlotUIndex(s, |t.exports|))
                && parentOf == ParentSlots(t)
                && forall p :: 0 <= p < |sublinks| ==> sublinks[p] == ChildrenBelow(parentOf, p, |parentOf|)
      ensures r.BadLink? ==> uIndexOf == old(uIndexOf) && parentOf == old(parentOf) && sublinks == old(sublinks)
    {
      r := BuildTree(t);
      if r.Built? {
        uIndexOf := r.forest.uIndexOf;
        parentOf := r.forest.parentOf;
        sublinks := r.forest.sublinks;
      }
    }

    /**
     * The second half of `handleUpdate`: the header pass over a tree that
     * extends `u0`/`p0` by the attached entries, every node's UIndex being in
     * the dictionary.
     */
    method ReparentForUpdate(ghost u0: seq<int>, ghost p0: seq<int>, ghost attached: seq<AddedEntry>,
                             changed: set<int>, linkOf: int -> int, finalMap: map<int, nat>)
      requires Valid() && MapsToNodes(finalMap) && |u0| >= 1
      requires Extended(u0, p0, uIndexOf, parentOf, attached)
      requires forall n :: 0 <= n < |uIndexOf| ==> uIndexOf[n] in finalMap
      modifies this
      ensures Valid() && uIndexOf == old(uIndexOf)
      ensures UnchangedKeepPlaces(u0, p0, uIndexOf, parentOf, attached, changed)
      ensures ChangedFollowLinks(uIndexOf, parentOf, changed, linkOf)
    {
      ghost var mid := parentOf;
      ReparentChangedHeaders(changed, linkOf, finalMap);
      UnchangedNodesKeepParents(u0, p0, uIndexOf, mid, parentOf, attached, changed, linkOf, finalMap);
      ChangedOnlyNodesFollowLinks(uIndexOf, parentOf, changed, linkOf, finalMap);
    }

    /**
     * The first half of `handleUpdate`: the UIndex dictionary over the current
     * nodes, then the attach loop; afterwards every node's UIndex is in the
     * dictionary and no node carries an orphan's link.
     */
    method AttachForUpdate(added: seq<AddedEntry>) returns (attached: seq<AddedEntry>, orphans: seq<AddedEntry>, finalMap: map<int, nat>)
      requires Valid()
      modifies this
      ensures Valid() && MapsToNodes(finalMap)
      ensures Extended(old(uIndexOf), old(parentOf), uIndexOf, parentOf, attached)
      ensures multiset(attached) + multiset(orphans) == multiset(NotYetInTree(added, old(uIndexOf)))
      ensures forall n :: 0 <= n < |uIndexOf| ==> uIndexOf[n] in finalMap
      ensures forall o :: o in orphans ==> o.idxLink !in uIndexOf
    {
      var m := BuildUIndexMap();
      var passes;
      attached, orphans, passes, finalMap := AttachAddedEntries(added, m);
      NodesKeyed(old(uIndexOf), uIndexOf, attached, m, finalMap);
      OrphansHaveNoNode(uIndexOf, orphans, finalMap);
    }
  }
}
