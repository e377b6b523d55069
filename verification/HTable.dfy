/** The hash table with bucket chains and a free list of deleted entries,
    refining a finite map from entry indices to keys. */
module HTable {
  import opened Sequences
  import opened HTableChains
  import Runs = HTableRuns

  function Abs(x: int): (r: nat)
    ensures r == x || r == -x
  {
    if x < 0 then -x else x
  }

  predicate IsPowerOf2(n: nat) {
    n == 1 || (n > 1 && n % 2 == 0 && IsPowerOf2(n / 2))
  }

  /** No buckets, or a power of 2 and one more, at least 8 + 1. */
  predicate IsBucketCount(n: nat) {
    n == 0 || (n >= 9 && IsPowerOf2(n - 1))
  }

  lemma EightIsPowerOf2()
    ensures IsBucketCount(9)
  {
    assert IsPowerOf2(4);
  }

  /** The entries that are not deleted. */
  ghost function Live<K>(entries: seq<Entry<K>>): map<nat, K> {
    map i: nat | i < |entries| && entries[i].hash != -1 :: entries[i].key
  }

  /** Entries hold the hash value of their key. */
  ghost predicate Stored<K>(entries: seq<Entry<K>>, hashfn: K -> int, out: set<nat>) {
    forall i :: 0 <= i < |entries| && i !in out && entries[i].hash != -1 ==> entries[i].hash == Abs(hashfn(entries[i].key))
  }

  ghost predicate DistinctKeys<K(!new)>(live: map<nat, K>) {
    forall i, j :: i in live && j in live && i != j ==> live[i] != live[j]
  }

  class HashTable<K(==,!new)> {
    const hashfn: K -> int
    var buckets: array<int>
    var numBuckets: nat
    var entries: seq<Entry<K>>
    var deleteList: int
    var numDeletes: nat
    ghost var chains: seq<seq<nat>>
    ghost var free: seq<nat>

    /** Everything but the indices listed as out is where it belongs. */
    ghost predicate Sane(out: set<nat>)
      reads this, buckets
    {
      && buckets.Length == numBuckets && IsBucketCount(numBuckets)
      && Chained(entries, buckets[..], chains, out)
      && Freed(entries, deleteList, free, out) && numDeletes == |free|
      && Stored(entries, hashfn, out)
    }

    ghost predicate Valid()
      reads this, buckets
    {
      Sane({}) && |entries| <= numBuckets && DistinctKeys(Live(entries))
    }

    /** What the operations are about: live entries, slots and deleted ones. */
    ghost function Now(): Runs.Table<K>
      reads this
    {
      Runs.Table(Live(entries), |entries|, numDeletes)
    }

    constructor (hash: K -> int)
      ensures Now() == Runs.Table(map[], 0, 0)
      ensures Valid() && fresh(buckets) && hashfn == hash && Live(entries) == map[]
    {
      hashfn := hash;
      buckets := new int[0];
      numBuckets, entries, deleteList, numDeletes := 0, [], -1, 0;
      chains, free := [], [];
    }

    /** jr_HTableSize. */
    method Size() returns (n: int)
      requires Valid()
      ensures n == |Live(entries)|
    {
      FreeCount(entries, deleteList, free, Live(entries).Keys);
      assert |Live(entries)| == |Live(entries).Keys|;
      n := |entries| - numDeletes;
    }

    /** jr_HTableFindIndexGeneric: the index of the entry with the key, or -1. */
    method FindIndex(k: K) returns (found: int)
      requires Valid()
      ensures found == -1 || (found >= 0 && found in Live(entries) && Live(entries)[found] == k)
      ensures found == -1 <==> k !in Live(entries).Values
    {
      hide Bucket, Chained, Links, Freed, Stored, NoDup;
      if numBuckets == 0 {
        return -1;
      }
      var hashValue := hashfn(k);
      if hashValue < 0 {
        hashValue := hashValue * -1;
      }
      BucketInRange(hashValue, numBuckets);
      ShowBucket(hashValue, numBuckets);
      var b: nat := hashValue % numBuckets;
      ChainStart(entries, buckets[..], chains, {}, b);
      found := buckets[b];
      ghost var c, p: nat := chains[b], 0;
      while found != -1
        invariant p <= |c| && found == At(c, p)
        invariant forall q :: 0 <= q < p ==> c[q] < |entries| && entries[c[q]].key != k
        decreases |c| - p
      {
        ChainStep(entries, buckets[..], chains, {}, b, p);
        if entries[found].key == k {
          return;
        }
        found := entries[found].next;
        p := p + 1;
      }
      NotInBucket(entries, buckets[..], chains, hashfn, k, b);
    }

    /** A key that is not in the chain of its bucket is not in the table. */
    static lemma NotInBucket(entries: seq<Entry<K>>, buckets: seq<int>, chains: seq<seq<nat>>, hashfn: K -> int, k: K, b: nat)
      requires Chained(entries, buckets, chains, {}) && Stored(entries, hashfn, {})
      requires |buckets| > 0 && b == Bucket(Abs(hashfn(k)), |buckets|)
      requires b < |buckets| && forall p :: 0 <= p < |chains[b]| ==> chains[b][p] < |entries| && entries[chains[b][p]].key != k
      ensures k !in Live(entries).Values
    {
      hide Bucket, Links, NoDup;
      forall i | i in Live(entries)
        ensures Live(entries)[i] != k
      {
        assert entries[i].hash == Abs(hashfn(entries[i].key));
        assert Reached(entries, chains, i);
      }
    }

    static lemma ShowBucket(hash: int, n: nat)
      requires hash >= 0 && n > 0
      ensures Bucket(hash, n) == hash % n
    {
    }

    /** jr_HTableAllocateNewIndex; blank is what a new slot of the entry array
        happens to hold. */
    method AllocateNewIndex(blank: Entry<K>) returns (newIndex: nat)
      requires Sane({})
      modifies this
      ensures buckets == old(buckets) && numBuckets == old(numBuckets)
      ensures Sane({newIndex}) && newIndex < |entries| && newIndex !in Live(old(entries))
      ensures |old(entries)| <= |entries| <= |old(entries)| + 1
      ensures forall i :: 0 <= i < |entries| && i != newIndex ==> i < |old(entries)| && entries[i] == old(entries[i])
      ensures |entries| == |old(entries)| <==> old(numDeletes) > 0
      ensures old(numDeletes) == 0 ==> newIndex == |old(entries)|
      ensures old(numDeletes) > 0 ==> old(free) == [newIndex] + free && newIndex == old(deleteList)
      ensures numDeletes == if old(numDeletes) > 0 then old(numDeletes) - 1 else 0
    {
      hide Links, Bucket, NoDup;
      if numDeletes > 0 {
        newIndex := FreeHead();
        TakenFromFree(entries, deleteList, free, {});
        WidenChained(entries, buckets[..], chains, newIndex);
        deleteList := entries[deleteList].next;
        numDeletes := numDeletes - 1;
        free := free[1..];
        assert {} + {newIndex} == {newIndex};
      } else {
        GrownEntries(entries, blank, buckets[..], chains, deleteList, free);
        newIndex := |entries|;
        entries := entries + [blank];
      }
    }

    method FreeHead() returns (i: nat)
      requires Sane({}) && numDeletes > 0
      ensures i == deleteList && i < |entries|
      ensures i == free[0] && entries[i].hash == -1
    {
      assert free[0] in free;
      i := deleteList;
    }

    static lemma WidenChained(entries: seq<Entry<K>>, buckets: seq<int>, chains: seq<seq<nat>>, i: nat)
      requires Chained(entries, buckets, chains, {}) && i < |entries| && entries[i].hash == -1
      ensures Chained(entries, buckets, chains, {i})
    {
      forall b | 0 <= b < |buckets|
        ensures ChainOf(entries, |buckets|, b, buckets[b], chains[b], {i})
      {
        assert ChainOf(entries, |buckets|, b, buckets[b], chains[b], {});
      }
    }

    static lemma GrownEntries(entries: seq<Entry<K>>, blank: Entry<K>, buckets: seq<int>, chains: seq<seq<nat>>, head: int, free: seq<nat>)
      requires Chained(entries, buckets, chains, {}) && Freed(entries, head, free, {})
      ensures Chained(entries + [blank], buckets, chains, {|entries|})
      ensures Freed(entries + [blank], head, free, {|entries|})
    {
      hide Links, Bucket, NoDup;
      var entries2, out := entries + [blank], {|entries|};
      forall b | 0 <= b < |buckets|
        ensures ChainOf(entries2, |buckets|, b, buckets[b], chains[b], out)
      {
        ChainFrame(entries, entries2, |buckets|, b, buckets[b], chains[b], {}, out);
      }
      forall i | 0 <= i < |entries2| && i !in out && entries2[i].hash >= 0
        ensures Reached(entries2, chains, i)
      {
        assert Reached(entries, chains, i);
      }
      LinksFrame(entries, entries2, head, free);
    }

    /** jr_HTableAddToBucketList. */
    method AddToBucketList(i: nat, ghost out: set<nat>)
      requires buckets.Length == numBuckets && Chained(entries, buckets[..], chains, out)
      requires i in out && i < |entries| && entries[i].hash >= 0
      modifies this`entries, this`chains, buckets
      ensures Chained(entries, buckets[..], chains, if numBuckets == 0 then out else out - {i})
      ensures OnlyAt(old(entries), entries, i) && entries[i] == old(entries[i]).(next := entries[i].next)
    {
      hide Chained, Bucket;
      if numBuckets == 0 {
        return;
      }
      BucketInRange(entries[i].hash, numBuckets);
      ShowBucket(entries[i].hash, numBuckets);
      ChainsLength(entries, buckets[..], chains, out);
      AddedToBucket(entries, buckets[..], chains, out, i);
      var b: nat := entries[i].hash % numBuckets;
      ghost var was := buckets[..];
      entries := entries[i := entries[i].(next := buckets[b])];
      buckets[b] := i;
      chains := chains[b := [i] + chains[b]];
      assert buckets[..] == was[b := i];
    }

    static lemma ChainsLength(entries: seq<Entry<K>>, buckets: seq<int>, chains: seq<seq<nat>>, out: set<nat>)
      requires Chained(entries, buckets, chains, out)
      ensures |chains| == |buckets|
    {
    }

    /** The entries from i on that are not deleted. */
    static ghost function LiveFrom(entries: seq<Entry<K>>, i: nat): (r: set<nat>)
      requires i <= |entries|
      ensures forall j: nat :: j in r <==> i <= j < |entries| && entries[j].hash != -1
    {
      set j: nat | i <= j < |entries| && entries[j].hash != -1
    }

    /** The doubling loop of jr_HTableIncreaseNumBuckets. */
    static method EnoughBuckets(count: nat, needed: nat) returns (n: nat)
      requires IsBucketCount(count) && count < needed
      ensures IsBucketCount(n) && needed <= n && (n == 9 || n < 2 * needed - 1)
    {
      n := count;
      while n < needed
        invariant IsBucketCount(n) && (n == count || n == 9 || n < 2 * needed - 1)
        decreases needed - n
      {
        if n == 0 {
          EightIsPowerOf2();
          n := 8 + 1;
        } else {
          n := 2 * (n - 1) + 1;
        }
      }
    }

    /** jr_HTableIncreaseNumBuckets: every chain is built again. */
    method IncreaseNumBuckets(ghost out: set<nat>)
      requires Sane(out) && forall i :: i in out ==> i < |entries| && entries[i].hash == Abs(hashfn(entries[i].key))
      requires numBuckets >= |entries| ==> out == {}
      modifies this, buckets
      ensures buckets == old(buckets) || fresh(buckets)
      ensures Sane({}) && |entries| <= numBuckets
      ensures numBuckets == old(numBuckets) || fresh(buckets)
      ensures numBuckets == old(numBuckets) || numBuckets == 9 || numBuckets < 2 * |entries| - 1
      ensures Live(entries) == old(Live(entries)) && |entries| == old(|entries|)
      ensures numDeletes == old(numDeletes)
    {
      hide Links, Bucket, NoDup, Chained;
      if numBuckets >= |entries| {
        return;
      }
      numBuckets := EnoughBuckets(numBuckets, |entries|);
      ghost var n := numBuckets;
      buckets := new int[numBuckets];
      for i := 0 to numBuckets
        invariant buckets.Length == numBuckets && fresh(buckets)
        invariant entries == old(entries) && deleteList == old(deleteList) && numDeletes == old(numDeletes)
        invariant free == old(free)
        invariant numBuckets == n
        invariant forall j :: 0 <= j < i ==> buckets[j] == -1
      {
        buckets[i] := -1;
      }
      chains := seq(numBuckets, _ => []);
      EmptyChains(entries, buckets[..], chains);
      ChainAll();
    }

    /** The last loop of jr_HTableIncreaseNumBuckets: every entry that is not
        deleted goes to its bucket. */
    method ChainAll()
      requires buckets.Length == numBuckets && Chained(entries, buckets[..], chains, LiveFrom(entries, 0))
      requires Freed(entries, deleteList, free, {}) && Stored(entries, hashfn, {}) && numBuckets > 0
      modifies this`entries, this`chains, buckets
      ensures Chained(entries, buckets[..], chains, {}) && Freed(entries, deleteList, free, {})
      ensures |entries| == |old(entries)|
      ensures forall j :: 0 <= j < |entries| ==> entries[j] == old(entries[j]).(next := entries[j].next)
    {
      hide Links, Bucket, NoDup, Chained;
      for i := 0 to |entries|
        invariant |entries| == |old(entries)|
        invariant forall j :: 0 <= j < |entries| ==> entries[j] == old(entries[j]).(next := entries[j].next)
        invariant Chained(entries, buckets[..], chains, LiveFrom(entries, i))
        invariant Freed(entries, deleteList, free, {})
      {
        if entries[i].hash != -1 {
          ghost var was := entries;
          AddToBucketList(i, LiveFrom(entries, i));
          assert LiveFrom(entries, i + 1) == LiveFrom(was, i) - {i};
          FreedFrame(was, entries, deleteList, free, {}, i);
        } else {
          assert LiveFrom(entries, i + 1) == LiveFrom(entries, i);
        }
      }
      assert LiveFrom(entries, |entries|) == {};
    }

    static lemma EmptyChains(entries: seq<Entry<K>>, buckets: seq<int>, chains: seq<seq<nat>>)
      requires |chains| == |buckets|
      requires forall b :: 0 <= b < |buckets| ==> buckets[b] == -1 && chains[b] == []
      ensures Chained(entries, buckets, chains, LiveFrom(entries, 0))
    {
    }

    /** jr_HTableNewIndexGeneric: -1 when the key is present, else the index of
        a new entry with the key; no other index changes. */
    method NewIndex(k: K, blank: Entry<K>) returns (newIndex: int)
      requires Valid()
      modifies this, buckets
      ensures Valid() && (buckets == old(buckets) || fresh(buckets))
      ensures Runs.Step(old(Now()), Runs.New(k, newIndex), Now())
      ensures newIndex == -1 ==> entries == old(entries) && numBuckets == old(numBuckets)
      ensures newIndex >= 0 && old(numDeletes) > 0 ==> old(free) == [newIndex as nat] + free
    {
      hide Links, Bucket, NoDup, Chained, Freed, Live, Stored, DistinctKeys;
      var currIndex := FindIndex(k);
      if currIndex >= 0 {
        return -1;
      }
      var i: nat := AllocateNewIndex(blank);
      ghost var was := entries;
      var hashValue := hashfn(k);
      if hashValue < 0 {
        hashValue := hashValue * -1;
      }
      entries := entries[i := entries[i].(key := k)];
      entries := entries[i := entries[i].(hash := hashValue)];
      entries := entries[i := entries[i].(next := -1)];
      ChainedFrame(was, entries, buckets[..], chains, {i}, i);
      FreedFrame(was, entries, deleteList, free, {i}, i);
      ghost var filled := entries;
      AddToBucketList(i, {i});
      FreedFrame(filled, entries, deleteList, free, {i}, i);
      NarrowFreed(entries, deleteList, free, i);
      assert {i} - {i} == {};
      KeyAdded(old(entries), entries, hashfn, i, k);
      if |entries| > numBuckets {
        IncreaseNumBuckets(if numBuckets == 0 then {i} else {});
      }
      newIndex := i;
    }

    /** One new entry, with a new key. */
    static lemma KeyAdded(entries: seq<Entry<K>>, entries2: seq<Entry<K>>, hashfn: K -> int, i: nat, k: K)
      requires i < |entries2| && |entries| <= |entries2| && i !in Live(entries)
      requires forall j :: 0 <= j < |entries2| && j != i ==> j < |entries| && entries2[j].(next := 0) == entries[j].(next := 0)
      requires entries2[i].key == k && entries2[i].hash == Abs(hashfn(k))
      requires Stored(entries, hashfn, {}) && DistinctKeys(Live(entries)) && k !in Live(entries).Values
      ensures Live(entries2) == Live(entries)[i := k]
      ensures Stored(entries2, hashfn, {}) && Stored(entries2, hashfn, {i}) && DistinctKeys(Live(entries2))
    {
      forall j | j in Live(entries)
        ensures Live(entries)[j] in Live(entries).Values
      {
      }
    }

    static lemma NarrowFreed(entries: seq<Entry<K>>, head: int, free: seq<nat>, i: nat)
      requires Freed(entries, head, free, {i}) && i < |entries| && entries[i].hash >= 0
      ensures Freed(entries, head, free, {})
    {
    }

    /** jr_HTableDeleteFromBucketList. */
    method DeleteFromBucketList(i: nat)
      requires Sane({}) && numBuckets > 0 && i in Live(entries)
      modifies this`entries, this`chains, buckets
      ensures Chained(entries, buckets[..], chains, {i}) && Freed(entries, deleteList, free, {})
      ensures |entries| == |old(entries)|
      ensures forall j :: 0 <= j < |entries| ==> entries[j] == old(entries[j]).(next := entries[j].next)
    {
      hide Bucket, NoDup, Chained, Links, Freed, RemovedAt;
      NonNegative(entries, hashfn, i);
      BucketInRange(entries[i].hash, numBuckets);
      ShowBucket(entries[i].hash, numBuckets);
      var b: nat := entries[i].hash % numBuckets;
      InOwnBucket(entries, buckets[..], chains, i);
      ghost var c, p: nat;
      c := chains[b];
      var prev, curr;
      prev, curr, p := WalkTo(i, b);
      RemovedFromBucket(entries, buckets[..], chains, {}, b, p);
      assert {} + {i} == {i};
      ghost var was, heads := entries, buckets[..];
      if prev == curr {
        buckets[b] := entries[curr].next;
        assert buckets[..] == heads[b := was[i].next];
      } else {
        entries := entries[prev := entries[prev].(next := entries[curr].next)];
        FreedFrame(was, entries, deleteList, free, {}, c[p - 1]);
      }
      chains := chains[b := RemovedAt(c, p)];
    }

    /** The walk along a chain to an entry in it, with the entry before it. */
    method WalkTo(i: nat, b: nat) returns (prev: int, curr: int, ghost p: nat)
      requires Sane({}) && b < numBuckets && b < |chains| && i in chains[b]
      ensures p < |chains[b]| && chains[b][p] == i == curr
      ensures prev == if p == 0 then curr else chains[b][p - 1]
      ensures prev == curr <==> p == 0
      ensures 0 <= curr < |entries| && 0 <= prev < |entries| && entries[prev].hash != -1
    {
      hide Bucket, NoDup, Chained, Links, Freed, Stored;
      ChainStart(entries, buckets[..], chains, {}, b);
      ghost var c := chains[b];
      ghost var place :| 0 <= place < |c| && c[place] == i;
      curr, p := buckets[b], 0;
      prev := curr;
      while curr != -1
        invariant p <= place && curr == c[p]
        invariant prev == if p == 0 then curr else c[p - 1]
        decreases place - p
      {
        ChainStep(entries, buckets[..], chains, {}, b, p);
        if curr == i {
          break;
        }
        prev := curr;
        curr := entries[curr].next;
        p := p + 1;
      }
      ChainStep(entries, buckets[..], chains, {}, b, p);
      if p > 0 {
        ChainStep(entries, buckets[..], chains, {}, b, p - 1);
      }
      ChainDistinct(c, p);
    }

    static lemma NonNegative(entries: seq<Entry<K>>, hashfn: K -> int, i: nat)
      requires Stored(entries, hashfn, {}) && i in Live(entries)
      ensures entries[i].hash >= 0
    {
    }

    static lemma InOwnBucket(entries: seq<Entry<K>>, buckets: seq<int>, chains: seq<seq<nat>>, i: nat)
      requires Chained(entries, buckets, chains, {}) && i < |entries| && entries[i].hash >= 0 && |buckets| > 0
      ensures var b := Bucket(entries[i].hash, |buckets|); b < |chains| && i in chains[b]
    {
      assert Reached(entries, chains, i);
    }

    static lemma ChainDistinct(c: seq<nat>, p: nat)
      requires NoDup(c) && p < |c|
      ensures p > 0 ==> c[p - 1] != c[p]
    {
    }

    /** jr_HTableDeleteIndex. */
    method DeleteIndex(i: nat)
      requires Valid() && i in Live(entries)
      modifies this, buckets
      ensures Valid() && buckets == old(buckets)
      ensures Runs.Step(old(Now()), Runs.Delete(i), Now())
      ensures deleteList == i && free == [i] + old(free)
    {
      hide Links, Bucket, NoDup, Chained, Freed;
      ghost var live := Live(entries);
      DeleteFromBucketList(i);
      ghost var was := entries;
      WidenFreed(entries, deleteList, free, i);
      AddedToFree(entries, deleteList, free, {i}, i);
      assert {i} - {i} == {};
      ghost var dead := was[i := was[i].(next := deleteList, hash := -1)];
      entries := entries[i := entries[i].(next := deleteList)];
      deleteList := i;
      numDeletes := numDeletes + 1;
      entries := entries[i := entries[i].(hash := -1)];
      free := [i] + free;
      assert entries == dead;
      ChainedFrame(was, entries, buckets[..], chains, {i}, i);
      DeadIsOut(entries, buckets[..], chains, i);
      assert Live(entries) == live - {i};
    }

    static lemma WidenFreed(entries: seq<Entry<K>>, head: int, free: seq<nat>, i: nat)
      requires Freed(entries, head, free, {}) && i < |entries| && entries[i].hash != -1
      ensures Freed(entries, head, free, {i})
    {
    }

    static lemma DeadIsOut(entries: seq<Entry<K>>, buckets: seq<int>, chains: seq<seq<nat>>, i: nat)
      requires Chained(entries, buckets, chains, {i}) && i < |entries| && entries[i].hash == -1
      ensures Chained(entries, buckets, chains, {})
    {
      forall b | 0 <= b < |buckets|
        ensures ChainOf(entries, |buckets|, b, buckets[b], chains[b], {})
      {
        assert ChainOf(entries, |buckets|, b, buckets[b], chains[b], {i});
      }
    }

    /** jr_HTableDeleteElement: the index of the deleted entry, or -1. */
    method DeleteElement(k: K) returns (i: int)
      requires Valid()
      modifies this, buckets
      ensures Valid() && buckets == old(buckets)
      ensures i == -1 <==> k !in old(Live(entries)).Values
      ensures i == -1 ==> entries == old(entries)
      ensures i != -1 ==> i >= 0 && i in old(Live(entries)) && old(Live(entries))[i] == k
      ensures i != -1 ==> Runs.Step(old(Now()), Runs.Delete(i), Now()) && k !in Live(entries).Values
    {
      i := FindIndex(k);
      if i >= 0 {
        DeleteIndex(i);
      }
    }

    /** jr_HTableEmpty: the buckets stay, and hold nothing. */
    method Empty()
      requires Valid()
      modifies this, buckets
      ensures Valid() && buckets == old(buckets) && numBuckets == old(numBuckets)
      ensures Runs.Step(old(Now()), Runs.Empty, Now())
    {
      hide Links, Bucket, NoDup, Chained, Freed;
      for i := 0 to numBuckets
        invariant buckets == old(buckets) && numBuckets == old(numBuckets) && buckets.Length == numBuckets
        invariant forall j :: 0 <= j < i ==> buckets[j] == -1
      {
        buckets[i] := -1;
      }
      entries := [];
      deleteList := -1;
      numDeletes := 0;
      chains, free := seq(numBuckets, _ => []), [];
      EmptyChains(entries, buckets[..], chains);
      assert LiveFrom(entries, 0) == {};
      NothingFreed(entries);
    }

    static lemma NothingFreed(entries: seq<Entry<K>>)
      requires entries == []
      ensures Freed(entries, -1, [], {})
    {
    }
  }
}
