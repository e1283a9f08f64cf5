/** The deduplication of examples/multi-source-etl/src/setup.ts: the newest of each key. */
module EtlMerge {
  import opened Wrappers

  /** A record by its key, its `updatedAt` (None where it is missing or empty) and everything else. */
  datatype Record<K, D> = Record(key: K, updatedAt: Option<int>, data: D)

  /** The condition under which a record replaces the one that was seen before. */
  predicate Newer(a: Option<int>, b: Option<int>) {
    a.Some? && (b.None? || a.value > b.value)
  }

  // ---- The Map `seen`: its values in the order in which their keys were first set

  /** The position of a key among the kept records, or their number. */
  function Position<K(==), D>(kept: seq<Record<K, D>>, key: K): (i: nat)
    ensures i <= |kept|
    ensures i < |kept| ==> kept[i].key == key
    ensures forall j | 0 <= j < i :: kept[j].key != key
  {
    if kept == [] || kept[0].key == key then 0 else 1 + Position(kept[1..], key)
  }

  /** `const existing = seen.get(key); if (...) seen.set(key, r)`: a key that is set again keeps its place. */
  function Put<K(==), D>(kept: seq<Record<K, D>>, r: Record<K, D>): seq<Record<K, D>> {
    var i := Position(kept, r.key);
    if i == |kept| then kept + [r]
    else if Newer(r.updatedAt, kept[i].updatedAt) then kept[i := r]
    else kept
  }

  /** Merging further records into the ones kept so far. */
  function MergeInto<K(==), D>(kept: seq<Record<K, D>>, records: seq<Record<K, D>>): seq<Record<K, D>>
    decreases |records|
  {
    if records == [] then kept else MergeInto(Put(kept, records[0]), records[1..])
  }

  function Merge<K(==), D>(records: seq<Record<K, D>>): seq<Record<K, D>> {
    MergeInto([], records)
  }

  /** An insertion-ordered map, as far as the merge uses it. */
  class InsertionOrderedMap<K(==), D> {
    var order: seq<K>
    var values: map<K, Record<K, D>>

    ghost predicate Valid()
      reads this
    {
      && (forall i, j | 0 <= i < j < |order| :: order[i] != order[j])
      && (forall k <- order :: k in values)
      && (forall k <- values :: k in order)
      && (forall k | k in values :: values[k].key == k)
    }

    /** `Array.from(seen.values())` */
    function Values(): (v: seq<Record<K, D>>)
      requires Valid()
      reads this
      ensures |v| == |order|
      ensures forall i | 0 <= i < |v| :: v[i].key == order[i] && v[i] == values[order[i]]
    {
      seq(|order|, i requires 0 <= i < |order| && Valid() reads this => assert order[i] in order; values[order[i]])
    }

    constructor ()
      ensures Valid() && Values() == []
    {
      order, values := [], map[];
    }

    /** `seen.get(key)` */
    method Get(key: K) returns (existing: Option<Record<K, D>>)
      requires Valid()
      ensures var i := Position(Values(), key);
              existing == if i == |Values()| then None else Some(Values()[i])
    {
      if key in values {
        ghost var j :| 0 <= j < |order| && order[j] == key;
        assert Values()[j].key == key;
        return Some(values[key]);
      }
      forall j | 0 <= j < |order|
        ensures order[j] != key
      {
        assert order[j] in order;
      }
      return None;
    }

    /** `seen.set(key, r)` */
    method Set(key: K, r: Record<K, D>)
      requires Valid() && r.key == key
      modifies this
      ensures Valid()
      ensures var before := old(Values());
              var i := Position(before, key);
              Values() == if i == |before| then before + [r] else before[i := r]
    {
      ghost var before := Values();
      ghost var i := Position(before, key);
      if key !in values {
        forall j | 0 <= j < |order|
          ensures order[j] != key
        {
          assert order[j] in order;
        }
        order := order + [key];
      } else {
        assert i < |before| by {
          var j :| 0 <= j < |order| && order[j] == key;
          assert before[j].key == key;
        }
      }
      values := values[key := r];
    }
  }

  /** The expression of the merge steps. */
  method MergeRecords<K(==), D>(mapped: seq<Record<K, D>>) returns (merged: seq<Record<K, D>>)
    ensures merged == Merge(mapped)
  {
    var seen := new InsertionOrderedMap<K, D>();
    for i := 0 to |mapped|
      invariant fresh(seen) && seen.Valid()
      invariant MergeInto([], mapped) == MergeInto(seen.Values(), mapped[i..])
    {
      var r := mapped[i];
      assert mapped[i..][1..] == mapped[i + 1..];
      var existing := seen.Get(r.key);
      if existing.None? || (r.updatedAt.Some? &&
         (existing.value.updatedAt.None? || r.updatedAt.value > existing.value.updatedAt.value)) {
        seen.Set(r.key, r);
      }
    }
    assert mapped[|mapped|..] == [];
    merged := seen.Values();
  }

  // ---- What the merge keeps

  ghost predicate DistinctKeys<K, D>(rs: seq<Record<K, D>>) {
    forall i, j | 0 <= i < j < |rs| :: rs[i].key != rs[j].key
  }

  /** Keys in the order of their first occurrence. */
  function FirstKeys<K(==), D>(rs: seq<Record<K, D>>): seq<K> {
    if rs == [] then []
    else
      var before := FirstKeys(rs[..|rs| - 1]);
      var key := rs[|rs| - 1].key;
      if key in before then before else before + [key]
  }

  /** A missing time counts lowest. */
  predicate AtMost(a: Option<int>, b: Option<int>) {
    a.None? || (b.Some? && a.value <= b.value)
  }

  /** Among the first n records with the key of record b: no time is above its own, and those before are below it. */
  ghost predicate IsBestAt<K, D>(rs: seq<Record<K, D>>, n: nat, b: nat) {
    && b < n <= |rs|
    && (forall j | 0 <= j < n && rs[j].key == rs[b].key :: AtMost(rs[j].updatedAt, rs[b].updatedAt))
    && (forall j | 0 <= j < b && rs[j].key == rs[b].key :: !AtMost(rs[b].updatedAt, rs[j].updatedAt))
  }

  ghost predicate IsBest<K, D>(r: Record<K, D>, rs: seq<Record<K, D>>, n: nat) {
    exists b: nat :: IsBestAt(rs, n, b) && rs[b] == r
  }

  function Keys<K(==), D>(rs: seq<Record<K, D>>): (ks: seq<K>)
    ensures |ks| == |rs|
  {
    seq(|rs|, i requires 0 <= i < |rs| => rs[i].key)
  }

  lemma MergeStep<K, D>(kept: seq<Record<K, D>>, records: seq<Record<K, D>>)
    requires records != []
    ensures var n := |records| - 1;
            MergeInto(kept, records) == Put(MergeInto(kept, records[..n]), records[n])
  {
    var n := |records| - 1;
    assert records == records[..n] + [records[n]];
    MergeAppend(kept, records[..n], [records[n]]);
    assert [records[n]][1..] == [];
  }

  lemma {:induction false} MergeAppend<K, D>(kept: seq<Record<K, D>>, a: seq<Record<K, D>>, b: seq<Record<K, D>>)
    ensures MergeInto(kept, a + b) == MergeInto(MergeInto(kept, a), b)
    decreases |a|
  {
    if a == [] {
      assert a + b == b;
    } else {
      MergeAppend(Put(kept, a[0]), a[1..], b);
      assert (a + b)[1..] == a[1..] + b;
    }
  }

  /**
    * The merge has one record for each key, in the order of the keys' first occurrences: the one
    * with the greatest `updatedAt`, a missing one counting lowest, and of equals the earliest.
    */
  lemma MergeKeepsBest<K, D>(rs: seq<Record<K, D>>)
    ensures DistinctKeys(Merge(rs))
    ensures Keys(Merge(rs)) == FirstKeys(rs)
    ensures forall r <- Merge(rs) :: IsBest(r, rs, |rs|)
  {
    PrefixKeepsBest(rs, |rs|);
    assert rs[..|rs|] == rs;
  }

  lemma MergeOneMore<K, D>(rs: seq<Record<K, D>>, m: nat)
    requires m < |rs|
    ensures Merge(rs[..m + 1]) == Put(Merge(rs[..m]), rs[m])
  {
    MergeStep([], rs[..m + 1]);
    assert rs[..m + 1][..m] == rs[..m];
  }

  lemma FirstKeysOneMore<K, D>(rs: seq<Record<K, D>>, m: nat)
    requires m < |rs|
    ensures var before := FirstKeys(rs[..m]);
            FirstKeys(rs[..m + 1]) == if rs[m].key in before then before else before + [rs[m].key]
  {
    assert rs[..m + 1][..m] == rs[..m];
  }

  lemma {:induction false} PrefixKeepsBest<K, D>(rs: seq<Record<K, D>>, n: nat)
    requires n <= |rs|
    ensures DistinctKeys(Merge(rs[..n]))
    ensures Keys(Merge(rs[..n])) == FirstKeys(rs[..n])
    ensures forall r <- Merge(rs[..n]) :: IsBest(r, rs, n)
    decreases n
  {
    if n == 0 {
    } else {
      var m := n - 1;
      PrefixKeepsBest(rs, m);
      MergeOneMore(rs, m);
      FirstKeysOneMore(rs, m);
      PutKeys(Merge(rs[..m]), rs[m]);
      PutKeepsBest(Merge(rs[..m]), rs, m);
    }
  }

  lemma PutKeys<K, D>(kept: seq<Record<K, D>>, r: Record<K, D>)
    requires DistinctKeys(kept)
    ensures DistinctKeys(Put(kept, r))
    ensures Keys(Put(kept, r)) == if r.key in Keys(kept) then Keys(kept) else Keys(kept) + [r.key]
  {
    var i := Position(kept, r.key);
    if i == |kept| {
      assert Keys(kept + [r]) == Keys(kept) + [r.key];
    } else {
      assert Keys(kept)[i] == r.key;
      assert Keys(kept[i := r]) == Keys(kept);
    }
  }

  lemma PutKeepsBest<K, D>(kept: seq<Record<K, D>>, rs: seq<Record<K, D>>, m: nat)
    requires m < |rs| && DistinctKeys(kept) && forall r <- kept :: IsBest(r, rs, m)
    requires Keys(kept) == FirstKeys(rs[..m])
    ensures forall r <- Put(kept, rs[m]) :: IsBest(r, rs, m + 1)
  {
    var p := Position(kept, rs[m].key);
    var put := Put(kept, rs[m]);
    forall i | 0 <= i < |put|
      ensures IsBest(put[i], rs, m + 1)
    {
      if i < |kept| {
        assert kept[i] in kept;
        if i != p {
          assert p < |kept| ==> kept[i].key != kept[p].key;
          OthersStay(kept[i], rs, m);
        } else {
          SameKey(kept[i], rs, m);
        }
      } else {
        NewKey(kept, rs, m);
      }
    }
  }

  lemma OthersStay<K, D>(best: Record<K, D>, rs: seq<Record<K, D>>, m: nat)
    requires m < |rs| && IsBest(best, rs, m) && best.key != rs[m].key
    ensures IsBest(best, rs, m + 1)
  {
    var b: nat :| IsBestAt(rs, m, b) && rs[b] == best;
    assert IsBestAt(rs, m + 1, b);
  }

  lemma SameKey<K, D>(best: Record<K, D>, rs: seq<Record<K, D>>, m: nat)
    requires m < |rs| && IsBest(best, rs, m) && best.key == rs[m].key
    ensures IsBest(if Newer(rs[m].updatedAt, best.updatedAt) then rs[m] else best, rs, m + 1)
  {
    var b: nat :| IsBestAt(rs, m, b) && rs[b] == best;
    if Newer(rs[m].updatedAt, best.updatedAt) {
      NewerIsBest(rs, m, b);
    } else {
      StaysBest(rs, m, b);
    }
  }

  lemma StaysBest<K, D>(rs: seq<Record<K, D>>, m: nat, b: nat)
    requires m < |rs| && IsBestAt(rs, m, b) && !Newer(rs[m].updatedAt, rs[b].updatedAt)
    ensures IsBest(rs[b], rs, m + 1)
  {
    assert IsBestAt(rs, m + 1, b);
  }

  lemma NewerIsBest<K, D>(rs: seq<Record<K, D>>, m: nat, b: nat)
    requires m < |rs| && IsBestAt(rs, m, b) && rs[b].key == rs[m].key && Newer(rs[m].updatedAt, rs[b].updatedAt)
    ensures IsBest(rs[m], rs, m + 1)
  {
    forall j | 0 <= j < m && rs[j].key == rs[m].key
      ensures Newer(rs[m].updatedAt, rs[j].updatedAt)
    {
      NewerThanAll(rs[m].updatedAt, rs[b].updatedAt, rs[j].updatedAt);
    }
    assert IsBestAt(rs, m + 1, m);
  }

  lemma NewerThanAll(a: Option<int>, b: Option<int>, c: Option<int>)
    requires Newer(a, b) && !Newer(c, b)
    ensures Newer(a, c) && !Newer(c, a)
  {
  }

  lemma NewKey<K, D>(kept: seq<Record<K, D>>, rs: seq<Record<K, D>>, m: nat)
    requires m < |rs| && Keys(kept) == FirstKeys(rs[..m])
    requires forall i | 0 <= i < |kept| :: kept[i].key != rs[m].key
    ensures IsBest(rs[m], rs, m + 1)
  {
    forall j | 0 <= j < m
      ensures rs[j].key != rs[m].key
    {
      FirstKeysHasAll(rs[..m], j);
      var i :| 0 <= i < |kept| && Keys(kept)[i] == rs[j].key;
    }
    assert IsBestAt(rs, m + 1, m);
  }

  lemma {:induction false} FirstKeysHasAll<K, D>(rs: seq<Record<K, D>>, j: nat)
    requires j < |rs|
    ensures rs[j].key in FirstKeys(rs)
    decreases |rs|
  {
    if j == |rs| - 1 {
    } else {
      FirstKeysHasAll(rs[..|rs| - 1], j);
    }
  }

  // ---- Batching

  /** Records with distinct keys are all kept, after records with other keys. */
  lemma {:induction false} MergeDistinct<K, D>(kept: seq<Record<K, D>>, rs: seq<Record<K, D>>)
    requires DistinctKeys(kept + rs)
    ensures MergeInto(kept, rs) == kept + rs
    decreases |rs|
  {
    if rs == [] {
      assert kept + rs == kept;
    } else {
      forall i | 0 <= i < |kept|
        ensures kept[i].key != rs[0].key
      {
        assert (kept + rs)[i].key != (kept + rs)[|kept|].key;
      }
      assert kept + rs == (kept + [rs[0]]) + rs[1..];
      MergeDistinct(kept + [rs[0]], rs[1..]);
    }
  }

  /** Merging is idempotent, and merging a first batch beforehand changes nothing. */
  lemma MergeInBatches<K, D>(a: seq<Record<K, D>>, b: seq<Record<K, D>>)
    ensures Merge(Merge(a)) == Merge(a)
    ensures Merge(a + b) == Merge(Merge(a) + b)
  {
    var m := Merge(a);
    MergeKeepsBest(a);
    assert [] + m == m;
    MergeDistinct([], m);
    MergeAppend([], a, b);
    MergeAppend([], m, b);
  }
}
