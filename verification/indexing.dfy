/**
 * What the editor's reindexing and duplicate-index tools compute, stated over
 * the export table as it is when a tool starts.
 *
 * Reindexing by name gives the exports that share a name and a parent path
 * (class definitions excepted) the instance numbers 1, 2, 3, ... in table
 * order. The duplicate tools group the exports by `InstancedFullPath`,
 * leaving out every export whose path lies under the trash package.
 */
module Indexing {
  import opened Text
  import opened Entries

  /** The export at table position `i` is renumbered when reindexing `name` under `prefix`. */
  predicate IsReindexTarget(t: Tables, i: nat, name: string, prefix: string)
    requires i < |t.exports|
  {
    t.exports[i].objectName == name && ParentInstancedFullPath(t, i + 1) == prefix && !t.exports[i].isClass
  }

  /** How many exports at positions below `k` are reindex targets. */
  function TargetsBelow(t: Tables, name: string, prefix: string, k: nat): (r: nat)
    requires k <= |t.exports|
    ensures r <= k
  {
    if k == 0 then 0
    else TargetsBelow(t, name, prefix, k - 1) + (if IsReindexTarget(t, k - 1, name, prefix) then 1 else 0)
  }

  /** The instance number the reindex loop hands to the target at position `i`. */
  function NumberGiven(t: Tables, name: string, prefix: string, i: nat): int
    requires i < |t.exports|
  {
    TargetsBelow(t, name, prefix, i) + 1
  }

  lemma {:induction false} TargetsBelowGrows(t: Tables, name: string, prefix: string, i: nat, j: nat)
    requires i < j <= |t.exports| && IsReindexTarget(t, i, name, prefix)
    ensures TargetsBelow(t, name, prefix, i) < TargetsBelow(t, name, prefix, j)
    decreases j
  {
    if j > i + 1 {
      TargetsBelowGrows(t, name, prefix, i, j - 1);
    }
  }

  /** Some target receives instance number `v`. */
  ghost predicate IsNumberHanded(t: Tables, name: string, prefix: string, v: int)
  {
    exists i :: 0 <= i < |t.exports| && IsReindexTarget(t, i, name, prefix) && NumberGiven(t, name, prefix, i) == v
  }

  /** Every number from 1 to the count below `k` is handed to some target below `k`. */
  lemma {:induction false} EveryNumberHanded(t: Tables, name: string, prefix: string, k: nat, v: int)
    requires k <= |t.exports| && 1 <= v <= TargetsBelow(t, name, prefix, k)
    ensures exists i :: 0 <= i < k && IsReindexTarget(t, i, name, prefix) && NumberGiven(t, name, prefix, i) == v
    decreases k
  {
    if v <= TargetsBelow(t, name, prefix, k - 1) {
      EveryNumberHanded(t, name, prefix, k - 1, v);
    } else {
      assert IsReindexTarget(t, k - 1, name, prefix) && NumberGiven(t, name, prefix, k - 1) == v;
    }
  }

  /**
   * The numbers the reindex hands out run exactly 1..n over the n targets:
   * they grow in table order (so no two targets share one) and each of 1..n
   * is used.
   */
  lemma ReindexNumbersTargetsOneToN(t: Tables, name: string, prefix: string)
    ensures forall i, j :: (0 <= i < j < |t.exports| && IsReindexTarget(t, i, name, prefix)
                           && IsReindexTarget(t, j, name, prefix)) ==>
              NumberGiven(t, name, prefix, i) < NumberGiven(t, name, prefix, j)
    ensures forall i :: 0 <= i < |t.exports| && IsReindexTarget(t, i, name, prefix) ==>
              1 <= NumberGiven(t, name, prefix, i) <= TargetsBelow(t, name, prefix, |t.exports|)
    ensures forall v :: 1 <= v <= TargetsBelow(t, name, prefix, |t.exports|) ==> IsNumberHanded(t, name, prefix, v)
  {
    forall i, j | 0 <= i < j < |t.exports| && IsReindexTarget(t, i, name, prefix)
      ensures NumberGiven(t, name, prefix, i) < NumberGiven(t, name, prefix, j)
    {
      TargetsBelowGrows(t, name, prefix, i, j);
    }
    forall i | 0 <= i < |t.exports| && IsReindexTarget(t, i, name, prefix)
      ensures NumberGiven(t, name, prefix, i) <= TargetsBelow(t, name, prefix, |t.exports|)
    {
      TargetsBelowGrows(t, name, prefix, i, |t.exports|);
    }
    forall v | 1 <= v <= TargetsBelow(t, name, prefix, |t.exports|)
      ensures IsNumberHanded(t, name, prefix, v)
    {
      EveryNumberHanded(t, name, prefix, |t.exports|, v);
    }
  }

  /**
   * After reindexing, two different targets carry different instanced
   * names: the exports the command renumbers no longer collide.
   */
  lemma ReindexedNamesDistinct(t: Tables, name: string, prefix: string, i: nat, j: nat)
    requires i < j < |t.exports| && IsReindexTarget(t, i, name, prefix) && IsReindexTarget(t, j, name, prefix)
    ensures InstancedName(name, NumberGiven(t, name, prefix, i)) != InstancedName(name, NumberGiven(t, name, prefix, j))
  {
    TargetsBelowGrows(t, name, prefix, i, j);
    if InstancedName(name, NumberGiven(t, name, prefix, i)) == InstancedName(name, NumberGiven(t, name, prefix, j)) {
      InstancedNameInjective(name, NumberGiven(t, name, prefix, i), NumberGiven(t, name, prefix, j));
    }
  }

  /** The grouping keys of the duplicate tools: every export's `InstancedFullPath`, in table order. */
  function ExportKeys(t: Tables): (keys: seq<string>)
    ensures |keys| == |t.exports|
    ensures forall i :: 0 <= i < |t.exports| ==> keys[i] == InstancedFullPath(t, i + 1)
  {
    seq(|t.exports|, i requires 0 <= i < |t.exports| => InstancedFullPath(t, i + 1))
  }

  /** The export at position `i` takes part in the duplicate check (its path is not under the trash package). */
  predicate Counted(keys: seq<string>, i: nat)
    requires i < |keys|
  {
    !IsTrashPath(keys[i])
  }

  /** The keys of the counted exports below position `n`. */
  function KeysBelow(keys: seq<string>, n: nat): set<string>
    requires n <= |keys|
  {
    if n == 0 then {} else KeysBelow(keys, n - 1) + (if Counted(keys, n - 1) then {keys[n - 1]} else {})
  }

  /** How many counted exports lie below position `n`. */
  function CountedBelow(keys: seq<string>, n: nat): nat
    requires n <= |keys|
  {
    if n == 0 then 0 else CountedBelow(keys, n - 1) + (if Counted(keys, n - 1) then 1 else 0)
  }

  /** A key is among the keys below `n` exactly when some counted export below `n` carries it. */
  lemma {:induction false} KeysBelowMeans(keys: seq<string>, n: nat, key: string)
    requires n <= |keys|
    ensures key in KeysBelow(keys, n) <==> exists j :: 0 <= j < n && Counted(keys, j) && keys[j] == key
    decreases n
  {
    if n > 0 {
      KeysBelowMeans(keys, n - 1, key);
      if key in KeysBelow(keys, n - 1) {
        var j :| 0 <= j < n - 1 && Counted(keys, j) && keys[j] == key;
        assert 0 <= j < n;
      }
    }
  }

  /** The export at position `i` is reported as a duplicate: it is counted and an earlier counted export has its key. */
  predicate IsReportedDuplicate(keys: seq<string>, i: nat)
    requires i < |keys|
  {
    Counted(keys, i) && keys[i] in KeysBelow(keys, i)
  }

  /** How many exports below position `n` are reported as duplicates. */
  function DuplicatesBelow(keys: seq<string>, n: nat): nat
    requires n <= |keys|
  {
    if n == 0 then 0 else DuplicatesBelow(keys, n - 1) + (if IsReportedDuplicate(keys, n - 1) then 1 else 0)
  }

  /**
   * Every counted export either brings a new key or is reported: the
   * distinct keys and the reported duplicates add up to the counted exports.
   */
  lemma {:induction false} DistinctPlusDuplicates(keys: seq<string>, n: nat)
    requires n <= |keys|
    ensures |KeysBelow(keys, n)| + DuplicatesBelow(keys, n) == CountedBelow(keys, n)
    decreases n
  {
    if n > 0 {
      DistinctPlusDuplicates(keys, n - 1);
      DistinctStep(keys, n);
    }
  }

  /** One export's share of `DistinctPlusDuplicates`: it adds a key or a duplicate exactly when it is counted. */
  lemma DistinctStep(keys: seq<string>, n: nat)
    requires 0 < n <= |keys|
    ensures |KeysBelow(keys, n)| + (if IsReportedDuplicate(keys, n - 1) then 1 else 0)
            == |KeysBelow(keys, n - 1)| + (if Counted(keys, n - 1) then 1 else 0)
  {
    var s := KeysBelow(keys, n - 1);
    var k := keys[n - 1];
    if Counted(keys, n - 1) && k !in s {
      assert KeysBelow(keys, n) == s + {k};
      assert |s + {k}| == |s| + 1;
    } else {
      assert KeysBelow(keys, n) == s;
    }
  }

  /** The export at position `i` opens a group with more than one member. */
  predicate IsGroupHead(keys: seq<string>, i: nat)
    requires i < |keys|
  {
    Counted(keys, i) && keys[i] !in KeysBelow(keys, i) && exists j :: i < j < |keys| && keys[j] == keys[i]
  }

  /** The counted positions below `n` that carry `key`, ascending. */
  function PositionsOf(keys: seq<string>, key: string, n: nat): (r: seq<nat>)
    requires n <= |keys|
    ensures forall a :: 0 <= a < |r| ==> r[a] < n
  {
    if n == 0 then []
    else PositionsOf(keys, key, n - 1) + (if Counted(keys, n - 1) && keys[n - 1] == key then [n - 1] else [])
  }

  /** The counted positions below `n` whose key no earlier counted export carries, ascending. */
  function FirstOccurrences(keys: seq<string>, n: nat): (r: seq<nat>)
    requires n <= |keys|
    ensures forall a :: 0 <= a < |r| ==> r[a] < n
  {
    if n == 0 then []
    else FirstOccurrences(keys, n - 1) + (if Counted(keys, n - 1) && keys[n - 1] !in KeysBelow(keys, n - 1) then [n - 1] else [])
  }

  /** A key with positions below `n` has its first occurrence first, and nothing below `n` precedes it. */
  lemma {:induction false} PositionsStartAtFirstOccurrence(keys: seq<string>, key: string, n: nat)
    requires n <= |keys|
    ensures PositionsOf(keys, key, n) != [] <==> key in KeysBelow(keys, n)
    ensures PositionsOf(keys, key, n) != [] ==>
              var f := PositionsOf(keys, key, n)[0];
              Counted(keys, f) && keys[f] == key && key !in KeysBelow(keys, f)
    decreases n
  {
    if n > 0 {
      PositionsStartAtFirstOccurrence(keys, key, n - 1);
      if PositionsOf(keys, key, n - 1) == [] && Counted(keys, n - 1) && keys[n - 1] == key {
        assert PositionsOf(keys, key, n)[0] == n - 1;
      }
    }
  }

  /** A key's positions below `n` are more than one exactly when a later export below `n` shares the first one's key. */
  lemma {:induction false} PositionsBeyondFirst(keys: seq<string>, key: string, n: nat)
    requires n <= |keys| && PositionsOf(keys, key, n) != []
    ensures var f := PositionsOf(keys, key, n)[0];
            |PositionsOf(keys, key, n)| > 1 <==> exists j :: f < j < n && keys[j] == key
    decreases n
  {
    var ps := PositionsOf(keys, key, n);
    var f := ps[0];
    PositionsStartAtFirstOccurrence(keys, key, n);
    if PositionsOf(keys, key, n - 1) == [] {
      assert ps == [n - 1] && f == n - 1;
    } else {
      PositionsBeyondFirst(keys, key, n - 1);
      assert PositionsOf(keys, key, n - 1)[0] == f;
      if exists j :: f < j < n && keys[j] == key {
        var j :| f < j < n && keys[j] == key;
        if j < n - 1 {
          assert |PositionsOf(keys, key, n - 1)| > 1;
        } else {
          assert Counted(keys, j);
        }
      }
    }
  }

  /** The first occurrences are ascending, each is a counted export whose key nothing earlier carries, and there are no others. */
  lemma FirstOccurrencesMeans(keys: seq<string>, n: nat)
    requires n <= |keys|
    ensures var fo := FirstOccurrences(keys, n);
            && (forall a, b :: 0 <= a < b < |fo| ==> fo[a] < fo[b])
            && (forall a :: 0 <= a < |fo| ==> Counted(keys, fo[a]) && keys[fo[a]] !in KeysBelow(keys, fo[a]))
            && (forall i :: 0 <= i < n && Counted(keys, i) && keys[i] !in KeysBelow(keys, i) ==> i in fo)
  {
    FirstOccurrencesAscending(keys, n);
    FirstOccurrencesSound(keys, n);
    FirstOccurrencesComplete(keys, n);
  }

  lemma {:induction false} FirstOccurrencesAscending(keys: seq<string>, n: nat)
    requires n <= |keys|
    ensures forall a, b :: 0 <= a < b < |FirstOccurrences(keys, n)| ==> FirstOccurrences(keys, n)[a] < FirstOccurrences(keys, n)[b]
    decreases n
  {
    if n > 0 {
      FirstOccurrencesAscending(keys, n - 1);
      var fo0 := FirstOccurrences(keys, n - 1);
      var fo := FirstOccurrences(keys, n);
      forall a, b | 0 <= a < b < |fo|
        ensures fo[a] < fo[b]
      {
        assert fo[a] == fo0[a];
        if b < |fo0| {
          assert fo[b] == fo0[b];
        } else {
          assert fo[b] == n - 1;
        }
      }
    }
  }

  lemma {:induction false} FirstOccurrencesSound(keys: seq<string>, n: nat)
    requires n <= |keys|
    ensures forall a :: 0 <= a < |FirstOccurrences(keys, n)| ==>
              var f := FirstOccurrences(keys, n)[a];
              Counted(keys, f) && keys[f] !in KeysBelow(keys, f)
    decreases n
  {
    if n > 0 {
      FirstOccurrencesSound(keys, n - 1);
      var fo0 := FirstOccurrences(keys, n - 1);
      var fo := FirstOccurrences(keys, n);
      forall a | 0 <= a < |fo|
        ensures Counted(keys, fo[a]) && keys[fo[a]] !in KeysBelow(keys, fo[a])
      {
        if a < |fo0| {
          assert fo[a] == fo0[a];
        } else {
          assert fo[a] == n - 1;
        }
      }
    }
  }

  lemma {:induction false} FirstOccurrencesComplete(keys: seq<string>, n: nat)
    requires n <= |keys|
    ensures forall i :: 0 <= i < n && Counted(keys, i) && keys[i] !in KeysBelow(keys, i) ==> i in FirstOccurrences(keys, n)
    decreases n
  {
    if n > 0 {
      FirstOccurrencesComplete(keys, n - 1);
      var fo0 := FirstOccurrences(keys, n - 1);
      var fo := FirstOccurrences(keys, n);
      assert fo == fo0 + (if Counted(keys, n - 1) && keys[n - 1] !in KeysBelow(keys, n - 1) then [n - 1] else []);
      forall i | 0 <= i < n && Counted(keys, i) && keys[i] !in KeysBelow(keys, i)
        ensures i in fo
      {
        if i < n - 1 {
          assert i in fo0;
        }
      }
    }
  }

  /** The first counted position carrying a key is that key's first occurrence. */
  lemma FirstPositionIsFirstOccurrence(keys: seq<string>, n: nat, f: nat)
    requires f < n <= |keys| && Counted(keys, f) && keys[f] !in KeysBelow(keys, f)
    ensures PositionsOf(keys, keys[f], n) != [] && PositionsOf(keys, keys[f], n)[0] == f
  {
    var key := keys[f];
    KeysBelowMeans(keys, n, key);
    PositionsStartAtFirstOccurrence(keys, key, n);
    var g := PositionsOf(keys, key, n)[0];
    KeysBelowMeans(keys, f, key);
    KeysBelowMeans(keys, g, key);
  }

  /**
   * The group of the first occurrence `fo[a]` starts with it, and has more
   * than one member exactly when `fo[a]` is a group head.
   */
  lemma GroupOfFirstOccurrence(keys: seq<string>, a: nat)
    requires a < |FirstOccurrences(keys, |keys|)|
    ensures var f := FirstOccurrences(keys, |keys|)[a];
            && keys[f] in KeysBelow(keys, |keys|)
            && PositionsOf(keys, keys[f], |keys|) != []
            && PositionsOf(keys, keys[f], |keys|)[0] == f
            && (|PositionsOf(keys, keys[f], |keys|)| > 1 <==> IsGroupHead(keys, f))
  {
    var n := |keys|;
    var f := FirstOccurrences(keys, n)[a];
    FirstOccurrencesMeans(keys, n);
    KeysBelowMeans(keys, n, keys[f]);
    FirstPositionIsFirstOccurrence(keys, n, f);
    PositionsBeyondFirst(keys, keys[f], n);
  }

  /** The entries of `fo` that open a group with more than one member, in the order of `fo`. */
  function GroupHeads(keys: seq<string>, fo: seq<nat>): (r: seq<nat>)
    requires forall a :: 0 <= a < |fo| ==> fo[a] < |keys|
    ensures forall x :: x in r ==> x in fo && IsGroupHead(keys, x)
    ensures forall a :: 0 <= a < |fo| && IsGroupHead(keys, fo[a]) ==> fo[a] in r
  {
    if fo == [] then []
    else
      var last := fo[|fo| - 1];
      GroupHeads(keys, fo[..|fo| - 1]) + (if IsGroupHead(keys, last) then [last] else [])
  }

  /** Filtering an ascending list keeps it ascending. */
  lemma {:induction false} GroupHeadsAscending(keys: seq<string>, fo: seq<nat>)
    requires forall a :: 0 <= a < |fo| ==> fo[a] < |keys|
    requires forall a, b :: 0 <= a < b < |fo| ==> fo[a] < fo[b]
    ensures forall p, q :: 0 <= p < q < |GroupHeads(keys, fo)| ==> GroupHeads(keys, fo)[p] < GroupHeads(keys, fo)[q]
    decreases |fo|
  {
    if fo != [] {
      var last := fo[|fo| - 1];
      var init := fo[..|fo| - 1];
      assert forall a :: 0 <= a < |init| ==> init[a] == fo[a];
      GroupHeadsAscending(keys, init);
      var r0 := GroupHeads(keys, init);
      forall p | 0 <= p < |r0| ensures r0[p] < last {
        assert r0[p] in init;
        var a :| 0 <= a < |init| && init[a] == r0[p];
      }
      var r := GroupHeads(keys, fo);
      assert r == r0 + (if IsGroupHead(keys, last) then [last] else []);
      forall p, q | 0 <= p < q < |r| ensures r[p] < r[q] {
        if q < |r0| {
          assert r[p] == r0[p] && r[q] == r0[q];
          assert r0[p] < r0[q];
        } else {
          assert r[p] == r0[p] && r[q] == last;
          assert r0[p] < last;
        }
      }
    }
  }

  /**
   * The heads picked from all first occurrences are exactly the group heads
   * of the table, ascending.
   */
  lemma GroupHeadsOfTable(keys: seq<string>)
    ensures var r := GroupHeads(keys, FirstOccurrences(keys, |keys|));
            && (forall p, q :: 0 <= p < q < |r| ==> r[p] < r[q])
            && (forall i :: i in r <==> 0 <= i < |keys| && IsGroupHead(keys, i))
  {
    var fo := FirstOccurrences(keys, |keys|);
    FirstOccurrencesMeans(keys, |keys|);
    GroupHeadsAscending(keys, fo);
    forall i | 0 <= i < |keys| && IsGroupHead(keys, i)
      ensures i in GroupHeads(keys, fo)
    {
      assert i in fo;
      var a :| 0 <= a < |fo| && fo[a] == i;
    }
  }
}
