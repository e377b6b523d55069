/** Lists of entry indices threaded through one next_index field: the chain of
    every bucket and the list of deleted entries. */
module HTableChains {
  import opened Sequences
  /** A hash value of -1 marks a deleted entry; a next index of -1 ends a list. */
  datatype Entry<K> = Entry(hash: int, next: int, key: K)

  function At(s: seq<nat>, p: nat): int {
    if p < |s| then s[p] else -1
  }

  /** Following next from head gives exactly the indices of s. */
  ghost predicate Links<K>(entries: seq<Entry<K>>, head: int, s: seq<nat>) {
    head == At(s, 0) && forall p :: 0 <= p < |s| ==> s[p] < |entries| && entries[s[p]].next == At(s, p + 1)
  }

  function Bucket(hash: int, n: nat): nat
    requires hash >= 0 && n > 0
  {
    hash % n
  }

  /** An entry's bucket is what remains of its hash value. */
  lemma BucketInRange(hash: int, n: nat)
    requires hash >= 0 && n > 0
    ensures Bucket(hash, n) < n && hash == n * (hash / n) + Bucket(hash, n)
  {
  }

  /** Every chain can be followed, and holds only entries of its bucket that are
      not listed as out. */
  ghost predicate ChainOf<K>(entries: seq<Entry<K>>, n: nat, b: nat, head: int, chain: seq<nat>, out: set<nat>) {
    && Links(entries, head, chain) && NoDup(chain)
    && forall i :: i in chain ==> InBucket(entries, n, i, b) && i !in out
  }

  ghost predicate InBucket<K>(entries: seq<Entry<K>>, n: nat, i: nat, b: nat) {
    i < |entries| && n > 0 && entries[i].hash >= 0 && Bucket(entries[i].hash, n) == b
  }

  /** Entry i is in the chain of its bucket. */
  ghost predicate Reached<K>(entries: seq<Entry<K>>, chains: seq<seq<nat>>, i: nat)
    requires i < |entries| && entries[i].hash >= 0
  {
    |chains| > 0 && Bucket(entries[i].hash, |chains|) < |chains| && i in chains[Bucket(entries[i].hash, |chains|)]
  }

  /** Every entry that is not deleted, and not listed as out, is in the chain of
      its bucket, and no chain holds anything else. */
  ghost predicate Chained<K>(entries: seq<Entry<K>>, buckets: seq<int>, chains: seq<seq<nat>>, out: set<nat>) {
    && |chains| == |buckets|
    && (forall b :: 0 <= b < |buckets| ==> ChainOf(entries, |buckets|, b, buckets[b], chains[b], out))
    && (forall i :: 0 <= i < |entries| && i !in out && entries[i].hash >= 0 ==> Reached(entries, chains, i))
  }

  /** The deleted entries that are not listed as out are those of the free list. */
  ghost predicate Freed<K>(entries: seq<Entry<K>>, head: int, free: seq<nat>, out: set<nat>) {
    && Links(entries, head, free) && NoDup(free)
    && (forall i :: i in free ==> i < |entries| && entries[i].hash == -1 && i !in out)
    && (forall i :: 0 <= i < |entries| && i !in out && entries[i].hash == -1 ==> i in free)
  }

  /** Only the named entry changed. */
  ghost predicate OnlyAt<K>(entries: seq<Entry<K>>, entries2: seq<Entry<K>>, i: nat) {
    |entries| == |entries2| && forall j :: 0 <= j < |entries| && j != i ==> entries2[j] == entries[j]
  }

  lemma LinksFrame<K>(entries: seq<Entry<K>>, entries2: seq<Entry<K>>, head: int, s: seq<nat>)
    requires Links(entries, head, s)
    requires forall i :: i in s ==> i < |entries2| && (i < |entries| ==> entries2[i].next == entries[i].next)
    ensures Links(entries2, head, s)
  {
    forall p | 0 <= p < |s|
      ensures s[p] < |entries2| && entries2[s[p]].next == At(s, p + 1)
    {
      assert s[p] in s;
    }
  }

  lemma LinksCons<K>(entries: seq<Entry<K>>, i: nat, s: seq<nat>)
    requires i < |entries| && Links(entries, entries[i].next, s)
    ensures Links(entries, i, [i] + s)
  {
    var r := [i] + s;
    forall p | 0 <= p < |r|
      ensures r[p] < |entries| && entries[r[p]].next == At(r, p + 1)
    {
      if p > 0 {
        assert r[p] == s[p - 1] && At(r, p + 1) == At(s, p);
      }
    }
  }

  lemma LinksTail<K>(entries: seq<Entry<K>>, head: int, s: seq<nat>)
    requires Links(entries, head, s) && s != []
    ensures head == s[0] && s[0] < |entries| && Links(entries, entries[s[0]].next, s[1..])
  {
    forall p | 0 <= p < |s[1..]|
      ensures s[1..][p] < |entries| && entries[s[1..][p]].next == At(s[1..], p + 1)
    {
      assert s[1..][p] == s[p + 1] && At(s[1..], p + 1) == At(s, p + 2);
    }
  }

  lemma NoDupCons(i: nat, s: seq<nat>)
    requires NoDup(s) && i !in s
    ensures NoDup([i] + s)
  {
  }

  /** Chains of entries that kept their next fields and hash values. */
  lemma ChainedFrame<K>(entries: seq<Entry<K>>, entries2: seq<Entry<K>>, buckets: seq<int>, chains: seq<seq<nat>>, out: set<nat>, i: nat)
    requires Chained(entries, buckets, chains, out) && OnlyAt(entries, entries2, i) && i in out
    ensures Chained(entries2, buckets, chains, out)
  {
    hide Links, Bucket, NoDup;
    forall b | 0 <= b < |buckets|
      ensures ChainOf(entries2, |buckets|, b, buckets[b], chains[b], out)
    {
      ChainFrame(entries, entries2, |buckets|, b, buckets[b], chains[b], out, out);
    }
    forall j | 0 <= j < |entries2| && j !in out && entries2[j].hash >= 0
      ensures Reached(entries2, chains, j)
    {
      assert Reached(entries, chains, j);
    }
  }

  /** A chain whose entries are unchanged. */
  lemma ChainFrame<K>(entries: seq<Entry<K>>, entries2: seq<Entry<K>>, n: nat, b: nat, head: int, chain: seq<nat>, out: set<nat>, out2: set<nat>)
    requires ChainOf(entries, n, b, head, chain, out)
    requires forall i :: i in chain && i < |entries| ==> i < |entries2| && entries2[i].next == entries[i].next && entries2[i].hash == entries[i].hash
    requires forall i :: i in chain ==> i !in out2
    ensures ChainOf(entries2, n, b, head, chain, out2)
  {
    LinksFrame(entries, entries2, head, chain);
  }

  lemma FreedFrame<K>(entries: seq<Entry<K>>, entries2: seq<Entry<K>>, head: int, free: seq<nat>, out: set<nat>, i: nat)
    requires Freed(entries, head, free, out) && OnlyAt(entries, entries2, i)
    requires i < |entries| && (i in out || (entries[i].hash != -1 && entries2[i].hash != -1))
    ensures Freed(entries2, head, free, out)
  {
    LinksFrame(entries, entries2, head, free);
  }

  /** An entry put in front of its bucket's chain. */
  lemma AddedToBucket<K>(entries: seq<Entry<K>>, buckets: seq<int>, chains: seq<seq<nat>>, out: set<nat>, i: nat)
    requires Chained(entries, buckets, chains, out) && i in out && |buckets| > 0
    requires i < |entries| && entries[i].hash >= 0
    ensures var b := Bucket(entries[i].hash, |buckets|);
            && b < |buckets|
            && Chained(entries[i := entries[i].(next := buckets[b])], buckets[b := i], chains[b := [i] + chains[b]], out - {i})
  {
    hide Links, Bucket, NoDup;
    BucketInRange(entries[i].hash, |buckets|);
    var b := Bucket(entries[i].hash, |buckets|);
    var entries2 := entries[i := entries[i].(next := buckets[b])];
    var buckets2, chains2, out2 := buckets[b := i], chains[b := [i] + chains[b]], out - {i};
    forall c | 0 <= c < |buckets|
      ensures ChainOf(entries2, |buckets|, c, buckets2[c], chains2[c], out2)
    {
      assert ChainOf(entries, |buckets|, c, buckets[c], chains[c], out);
      ChainFrame(entries, entries2, |buckets|, c, buckets[c], chains[c], out, out2);
      if c == b {
        LinksCons(entries2, i, chains[b]);
        NoDupCons(i, chains[b]);
      }
    }
    forall j | 0 <= j < |entries2| && j !in out2 && entries2[j].hash >= 0
      ensures Reached(entries2, chains2, j)
    {
      if j != i {
        assert Reached(entries, chains, j);
      }
    }
  }

  /** Removing the entry at position p of a list: what pointed to it now points
      to what it pointed to. */
  lemma LinksWithout<K>(entries: seq<Entry<K>>, head: int, s: seq<nat>, p: nat)
    requires Links(entries, head, s) && NoDup(s) && p < |s|
    ensures s[p] < |entries| && (p > 0 ==> s[p - 1] < |entries|)
    ensures p == 0 ==> Links(entries, entries[s[0]].next, RemovedAt(s, 0))
    ensures p > 0 ==> Links(entries[s[p - 1] := entries[s[p - 1]].(next := entries[s[p]].next)], head, RemovedAt(s, p))
  {
    var r := RemovedAt(s, p);
    if p == 0 {
      LinksTail(entries, head, s);
      assert r == s[1..];
    } else {
      var entries2 := entries[s[p - 1] := entries[s[p - 1]].(next := entries[s[p]].next)];
      forall q | 0 <= q < |r|
        ensures r[q] < |entries2| && entries2[r[q]].next == At(r, q + 1)
      {
        if q < p - 1 {
          assert r[q] == s[q] && r[q + 1] == s[q + 1];
        } else if q == p - 1 {
          assert r[q] == s[p - 1] && At(r, q + 1) == At(s, p + 1);
        } else {
          assert r[q] == s[q + 1] && At(r, q + 1) == At(s, q + 2);
        }
      }
    }
  }

  function Unlinked<K>(entries: seq<Entry<K>>, c: seq<nat>, p: nat): seq<Entry<K>>
    requires p < |c| && c[p] < |entries| && (p > 0 ==> c[p - 1] < |entries|)
  {
    if p > 0 then entries[c[p - 1] := entries[c[p - 1]].(next := entries[c[p]].next)] else entries
  }

  lemma UnlinkedChain<K>(entries: seq<Entry<K>>, n: nat, b: nat, head: int, c: seq<nat>, out: set<nat>, p: nat)
    requires ChainOf(entries, n, b, head, c, out) && p < |c|
    ensures c[p] < |entries| && (p > 0 ==> c[p - 1] < |entries|)
    ensures ChainOf(Unlinked(entries, c, p), n, b, if p > 0 then head else entries[c[p]].next, RemovedAt(c, p), out + {c[p]})
  {
    RemovedElements(c, p);
    LinksWithout(entries, head, c, p);
  }

  /** Where a walk along a chain starts. */
  lemma ChainStart<K>(entries: seq<Entry<K>>, buckets: seq<int>, chains: seq<seq<nat>>, out: set<nat>, b: nat)
    requires Chained(entries, buckets, chains, out) && b < |buckets|
    ensures |chains| == |buckets| && buckets[b] == At(chains[b], 0) && NoDup(chains[b])
  {
    hide NoDup, Bucket;
    assert ChainOf(entries, |buckets|, b, buckets[b], chains[b], out);
  }

  /** What it meets at each step. */
  lemma ChainStep<K>(entries: seq<Entry<K>>, buckets: seq<int>, chains: seq<seq<nat>>, out: set<nat>, b: nat, p: nat)
    requires Chained(entries, buckets, chains, out) && b < |buckets| && b < |chains| && p < |chains[b]|
    ensures var i := chains[b][p];
            i < |entries| && entries[i].next == At(chains[b], p + 1) && entries[i].hash != -1
  {
    hide NoDup, Bucket;
    assert ChainOf(entries, |buckets|, b, buckets[b], chains[b], out);
    assert chains[b][p] in chains[b];
  }

  /** An entry taken out of its bucket's chain. */
  lemma RemovedFromBucket<K>(entries: seq<Entry<K>>, buckets: seq<int>, chains: seq<seq<nat>>, out: set<nat>, b: nat, p: nat)
    requires Chained(entries, buckets, chains, out) && b < |buckets| && p < |chains[b]|
    ensures var c := chains[b];
            && c[p] < |entries| && (p > 0 ==> c[p - 1] < |entries|)
            && Chained(Unlinked(entries, c, p), if p > 0 then buckets else buckets[b := entries[c[p]].next],
                       chains[b := RemovedAt(c, p)], out + {c[p]})
  {
    hide Links, Bucket, NoDup, RemovedAt;
    var c := chains[b];
    var i := c[p];
    assert ChainOf(entries, |buckets|, b, buckets[b], c, out);
    UnlinkedChain(entries, |buckets|, b, buckets[b], c, out, p);
    var entries2 := Unlinked(entries, c, p);
    var buckets2 := if p > 0 then buckets else buckets[b := entries[i].next];
    var chains2, out2 := chains[b := RemovedAt(c, p)], out + {i};
    assert p > 0 ==> c[p - 1] in c;
    forall d | 0 <= d < |buckets|
      ensures ChainOf(entries2, |buckets|, d, buckets2[d], chains2[d], out2)
    {
      if d != b {
        assert ChainOf(entries, |buckets|, d, buckets[d], chains[d], out);
        ChainFrame(entries, entries2, |buckets|, d, buckets[d], chains[d], out, out2);
      }
    }
    ChainRemoved(entries, |buckets|, b, buckets[b], c, out, p);
    forall j | 0 <= j < |entries2| && j !in out2 && entries2[j].hash >= 0
      ensures Reached(entries2, chains2, j)
    {
      assert entries2[j].hash == entries[j].hash;
      assert Reached(entries, chains, j);
    }
  }

  lemma ChainRemoved<K>(entries: seq<Entry<K>>, n: nat, b: nat, head: int, c: seq<nat>, out: set<nat>, p: nat)
    requires ChainOf(entries, n, b, head, c, out) && p < |c|
    ensures forall i :: i in RemovedAt(c, p) <==> i in c && i != c[p]
  {
    RemovedElements(c, p);
  }

  /** An entry put in front of the free list. */
  lemma AddedToFree<K>(entries: seq<Entry<K>>, head: int, free: seq<nat>, out: set<nat>, i: nat)
    requires Freed(entries, head, free, out) && i in out && i < |entries|
    ensures Freed(entries[i := entries[i].(next := head, hash := -1)], i, [i] + free, out - {i})
  {
    var entries2 := entries[i := entries[i].(next := head, hash := -1)];
    LinksFrame(entries, entries2, head, free);
    LinksCons(entries2, i, free);
    NoDupCons(i, free);
  }

  lemma TailElements(s: seq<nat>)
    requires NoDup(s) && s != []
    ensures NoDup(s[1..])
    ensures forall x :: x in s <==> x == s[0] || x in s[1..]
    ensures s[0] !in s[1..]
  {
    assert s == [s[0]] + s[1..];
  }

  /** The first entry of the free list taken off it. */
  lemma TakenFromFree<K>(entries: seq<Entry<K>>, head: int, free: seq<nat>, out: set<nat>)
    requires Freed(entries, head, free, out) && free != []
    ensures head == free[0] && free[0] < |entries| && free[0] !in out
    ensures Freed(entries, entries[free[0]].next, free[1..], out + {free[0]})
  {
    LinksTail(entries, head, free);
    TailElements(free);
    hide Links, NoDup;
  }

  /** All entries are either in the free list or not deleted. */
  lemma FreeCount<K>(entries: seq<Entry<K>>, head: int, free: seq<nat>, live: set<nat>)
    requires Freed(entries, head, free, {})
    requires forall i: nat :: i in live <==> (i < |entries| && entries[i].hash != -1)
    ensures |live| + |free| == |entries|
  {
    BelowSize(|entries|);
    assert Below(|entries|) == live + SetOf(free);
    assert live !! SetOf(free);
  }
}
