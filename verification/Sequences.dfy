/** Sequences without repeated elements, of element pointers and of indices, and
    sets of indices. */
module Sequences {
  ghost predicate NoDup(s: seq<nat>) {
    forall i, j :: 0 <= i < j < |s| ==> s[i] != s[j]
  }

  function RemovedAt(s: seq<nat>, p: nat): seq<nat>
    requires p < |s|
  {
    s[..p] + s[p + 1..]
  }

  lemma RemovedElements(s: seq<nat>, p: nat)
    requires p < |s| && NoDup(s)
    ensures NoDup(RemovedAt(s, p)) && s[p] !in RemovedAt(s, p)
    ensures forall i :: i in RemovedAt(s, p) <==> i in s && i != s[p]
  {
    var r := RemovedAt(s, p);
    forall q | 0 <= q < |r|
      ensures r[q] != s[p]
    {
      assert r[q] == if q < p then s[q] else s[q + 1];
    }
    forall i | i in s && i != s[p]
      ensures i in r
    {
      var q :| 0 <= q < |s| && s[q] == i;
      assert r[if q < p then q else q - 1] == i;
    }
  }

  /** The indices below n. */
  ghost function Below(n: nat): (r: set<nat>)
    ensures forall i: nat :: i in r <==> i < n
  {
    if n == 0 then {} else Below(n - 1) + {n - 1}
  }

  lemma {:induction false} BelowSize(n: nat)
    ensures |Below(n)| == n
  {
    if n > 0 {
      BelowSize(n - 1);
    }
  }

  ghost function SetOf(s: seq<nat>): (r: set<nat>)
    ensures forall i: nat :: i in r <==> i in s
    ensures NoDup(s) ==> |r| == |s|
  {
    if s == [] then {} else
      var last := |s| - 1;
      assert s == s[..last] + [s[last]];
      assert NoDup(s) ==> NoDup(s[..last]) && s[last] !in s[..last];
      SetOf(s[..last]) + {s[last]}
  }
}
