/** How the links of several containers share the front of an element. */
module PrefixLayout {
  datatype Kind = Doubly | Singly

  function Words(k: Kind): nat {
    if k.Doubly? then 2 else 1
  }

  function Sum(sizes: seq<nat>): nat {
    if sizes == [] then 0 else sizes[0] + Sum(sizes[1..])
  }

  /** Container j has the words from total - offsets[j] - sizes[j] up to
      total - offsets[j], counted from the front of the element. */
  function AreaStart(sizes: seq<nat>, offsets: seq<nat>, total: nat, j: nat): int
    requires j < |sizes| && |offsets| == |sizes|
  {
    total - offsets[j] - sizes[j]
  }

  predicate InArea(sizes: seq<nat>, offsets: seq<nat>, total: nat, j: nat, k: int)
    requires j < |sizes| && |offsets| == |sizes|
  {
    AreaStart(sizes, offsets, total, j) <= k < AreaStart(sizes, offsets, total, j) + sizes[j]
  }

  ghost predicate InSomeArea(sizes: seq<nat>, offsets: seq<nat>, total: nat, k: int)
    requires |offsets| == |sizes|
  {
    exists j :: 0 <= j < |sizes| && InArea(sizes, offsets, total, j, k)
  }

  /** jr_PrefixArrayCreateFromVA_List: offsets are given from the last container
      to the first. The areas do not overlap and leave no word of the prefix. */
  method PrefixArrayCreate(sizes: seq<nat>) returns (offsets: seq<nat>, total: nat)
    ensures |offsets| == |sizes| && total == Sum(sizes)
    ensures forall j :: 0 <= j < |sizes| ==> offsets[j] + sizes[j] <= total
    ensures forall i, j :: 0 <= i < j < |sizes| ==> offsets[j] + sizes[j] <= offsets[i]
    ensures forall k :: 0 <= k < total ==> InSomeArea(sizes, offsets, total, k)
  {
    offsets, total := seq(|sizes|, _ => 0), 0;
    var i := |sizes|;
    while i > 0
      invariant 0 <= i <= |sizes| && |offsets| == |sizes| && total == Sum(sizes[i..])
      invariant forall j :: i <= j < |sizes| ==> offsets[j] + sizes[j] <= total
      invariant forall a, b :: i <= a < b < |sizes| ==> offsets[b] + sizes[b] <= offsets[a]
      invariant forall k :: 0 <= k < total ==> CoveredFrom(sizes, offsets, i, k)
    {
      i := i - 1;
      ghost var was, n := offsets, total;
      offsets := offsets[i := total];
      total := total + sizes[i];
      assert sizes[i..] == [sizes[i]] + sizes[i + 1..];
      CoverMore(sizes, was, offsets, i, i + 1, n);
    }
    assert sizes[0..] == sizes;
    forall k | 0 <= k < total
      ensures InSomeArea(sizes, offsets, total, k)
    {
      assert CoveredFrom(sizes, offsets, 0, total - 1 - k);
      var j :| 0 <= j < |sizes| && Covers(sizes, offsets, j, total - 1 - k);
      assert InArea(sizes, offsets, total, j, k);
    }
  }

  lemma CoverMore(sizes: seq<nat>, was: seq<nat>, offsets: seq<nat>, i: nat, next: nat, n: nat)
    requires i < |sizes| == |was| && offsets == was[i := n] && next == i + 1
    requires forall k :: 0 <= k < n ==> CoveredFrom(sizes, was, next, k)
    ensures forall k :: 0 <= k < n + sizes[i] ==> CoveredFrom(sizes, offsets, i, k)
  {
    forall k | 0 <= k < n + sizes[i]
      ensures CoveredFrom(sizes, offsets, i, k)
    {
      if k < n {
        assert CoveredFrom(sizes, was, next, k);
        var j :| next <= j < |sizes| && Covers(sizes, was, j, k);
        assert Covers(sizes, offsets, j, k);
      } else {
        assert Covers(sizes, offsets, i, k);
      }
    }
  }

  ghost predicate CoveredFrom(sizes: seq<nat>, offsets: seq<nat>, i: nat, k: int)
    requires |offsets| == |sizes|
  {
    exists j :: i <= j < |sizes| && Covers(sizes, offsets, j, k)
  }

  /** The same areas, counted from the data words backwards. */
  ghost predicate Covers(sizes: seq<nat>, offsets: seq<nat>, j: nat, k: int)
    requires j < |sizes| && |offsets| == |sizes|
  {
    offsets[j] <= k < offsets[j] + sizes[j]
  }
}
