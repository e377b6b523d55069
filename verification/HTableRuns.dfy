/** Whole runs of the hash table's operations, seen as a finite map from entry
    indices to keys with a count of slots and of deleted ones. */
module HTableRuns {
  datatype Table<K> = Table(live: map<nat, K>, slots: nat, deletes: nat)

  /** The operations; New carries the index it returned, -1 for a known key. */
  datatype Op<K> = New(key: K, index: int) | Delete(at: nat) | Empty

  ghost predicate Step<K(!new)>(t: Table<K>, op: Op<K>, t2: Table<K>) {
    match op
    case New(k, i) =>
      if k in t.live.Values then i == -1 && t2 == t
      else
        && i >= 0 && i !in t.live && t2.live == t.live[i as nat := k]
        && (if t.deletes > 0 then t2.slots == t.slots && t2.deletes == t.deletes - 1
            else i == t.slots && t2.slots == t.slots + 1 && t2.deletes == 0)
    case Delete(i) =>
      && i in t.live && t2 == Table(t.live - {i}, t.slots, t.deletes + 1)
    case Empty => t2 == Table(map[], 0, 0)
  }

  ghost predicate IsRun<K(!new)>(ops: seq<Op<K>>, tables: seq<Table<K>>) {
    && |tables| == |ops| + 1 && tables[0] == Table(map[], 0, 0)
    && forall i :: 0 <= i < |ops| ==> Step(tables[i], ops[i], tables[i + 1])
  }

  /** Between the two times the table is not emptied and the index not deleted. */
  ghost predicate Untouched<K(!new)>(ops: seq<Op<K>>, i: nat, start: nat, end: nat)
    requires start <= end <= |ops|
  {
    forall t :: start <= t < end ==> !ops[t].Empty? && ops[t] != Delete(i)
  }

  /** An entry keeps its index and key until it is deleted or the table emptied,
      whatever else is inserted, deleted or rehashed. */
  lemma {:induction false} LiveIndexStays<K(!new)>(ops: seq<Op<K>>, tables: seq<Table<K>>, i: nat, start: nat, end: nat)
    requires IsRun(ops, tables) && start <= end <= |ops|
    requires i in tables[start].live && Untouched(ops, i, start, end)
    ensures i in tables[end].live && tables[end].live[i] == tables[start].live[i]
    decreases end
  {
    if start < end {
      LiveIndexStays(ops, tables, i, start, end - 1);
      assert Step(tables[end - 1], ops[end - 1], tables[end]);
    }
  }

  /** The largest number of entries live at one time, up to a time. */
  ghost function MostLive<K>(tables: seq<Table<K>>, n: nat): (r: nat)
    requires n < |tables|
    ensures r >= |tables[n].live|
    decreases n
  {
    if n == 0 then |tables[0].live|
    else if MostLive(tables, n - 1) < |tables[n].live| then |tables[n].live|
    else MostLive(tables, n - 1)
  }

  lemma OneMore<K>(m: map<nat, K>, i: nat, k: K)
    requires i !in m
    ensures |m[i := k]| == |m| + 1
  {
    assert m[i := k].Keys == m.Keys + {i};
    assert |m[i := k]| == |m[i := k].Keys| && |m| == |m.Keys|;
  }

  lemma OneLess<K>(m: map<nat, K>, i: nat)
    requires i in m
    ensures |m - {i}| == |m| - 1
  {
    assert (m - {i}).Keys == m.Keys - {i};
    assert |m - {i}| == |(m - {i}).Keys| && |m| == |m.Keys|;
  }

  /** Every slot is either live or counted as deleted, no index is beyond the
      slots, and a slot is added only when there was never room before: the entry
      array is no longer than the most entries that were live at one time. */
  lemma {:induction false} SlotsAreReused<K(!new)>(ops: seq<Op<K>>, tables: seq<Table<K>>, n: nat)
    requires IsRun(ops, tables) && n <= |ops|
    ensures tables[n].slots == |tables[n].live| + tables[n].deletes
    ensures tables[n].slots <= MostLive(tables, n)
    decreases n
  {
    hide Step, MostLive;
    if n > 0 {
      SlotsAreReused(ops, tables, n - 1);
      assert Step(tables[n - 1], ops[n - 1], tables[n]);
      SlotStep(tables[n - 1], ops[n - 1], tables[n]);
      MostLiveGrows(tables, n);
    }
  }

  lemma MostLiveGrows<K>(tables: seq<Table<K>>, n: nat)
    requires 0 < n < |tables|
    ensures MostLive(tables, n) >= MostLive(tables, n - 1)
  {
  }

  /** One operation keeps the slots accounted for, and adds one only when there is
      no deleted one. */
  lemma SlotStep<K(!new)>(t: Table<K>, op: Op<K>, t2: Table<K>)
    requires Step(t, op, t2) && t.slots == |t.live| + t.deletes
    ensures t2.slots == |t2.live| + t2.deletes
    ensures t2.slots <= t.slots || t2.slots == |t2.live|
  {
    match op {
      case New(k, i) =>
        if k !in t.live.Values {
          OneMore(t.live, i, k);
        }
      case Delete(i) => OneLess(t.live, i);
      case Empty =>
    }
  }
}
