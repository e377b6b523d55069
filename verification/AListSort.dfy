/** Sorting part of an array list in place, and sorting it while deleting all but
    one of the elements that compare equal. */
module AListSort {
  ghost predicate Ascending<T>(s: seq<T>, key: T -> int) {
    forall i, j :: 0 <= i < j < |s| ==> key(s[i]) <= key(s[j])
  }

  ghost predicate Strict<T>(s: seq<T>, key: T -> int) {
    forall i, j :: 0 <= i < j < |s| ==> key(s[i]) < key(s[j])
  }

  /** No element of s is greater than one of r. */
  ghost predicate NotAbove<T>(s: seq<T>, r: seq<T>, key: T -> int) {
    forall i, j :: 0 <= i < |s| && 0 <= j < |r| ==> key(s[i]) <= key(r[j])
  }

  /** Some element of s compares equal to x. */
  ghost predicate HasKey<T(!new)>(s: seq<T>, key: T -> int, x: T) {
    exists i :: 0 <= i < |s| && key(s[i]) == key(x)
  }

  ghost predicate AllHaveKey<T(!new)>(freed: seq<T>, s: seq<T>, key: T -> int) {
    forall i :: 0 <= i < |freed| ==> HasKey(s, key, freed[i])
  }

  /** The list as the range's surroundings, its sorted and its unsorted part. */
  ghost predicate Laid<T>(c: seq<T>, front: seq<T>, done: seq<T>, rest: seq<T>, behind: seq<T>) {
    c == front + done + rest + behind
  }

  /** What is kept and what was freed is together what was there. */
  ghost predicate Conserved<T>(kept: seq<T>, freed: seq<T>, range: seq<T>) {
    multiset(kept) + multiset(freed) == multiset(range)
  }

  lemma FreedOne<T>(kept: seq<T>, kept2: seq<T>, freed: seq<T>, x: T, range: seq<T>)
    requires Conserved(kept, freed, range) && multiset(kept) == multiset(kept2) + multiset{x}
    ensures Conserved(kept2, freed + [x], range)
  {
  }

  function Swapped<T>(s: seq<T>, i: nat, j: nat): seq<T>
    requires i < |s| && j < |s|
  {
    s[i := s[j]][j := s[i]]
  }

  lemma SwappedMultiset<T>(s: seq<T>, i: nat, j: nat)
    requires i < |s| && j < |s|
    ensures multiset(Swapped(s, i, j)) == multiset(s)
  {
  }

  /** Element m taken out, the last one put in its place. */
  function TakenOut<T>(s: seq<T>, m: nat): seq<T>
    requires m < |s|
  {
    s[m := s[|s| - 1]][..|s| - 1]
  }

  lemma TakenOutMultiset<T>(s: seq<T>, m: nat)
    requires m < |s|
    ensures multiset(s) == multiset(TakenOut(s, m)) + multiset{s[m]}
  {
    var n := |s| - 1;
    SwappedMultiset(s, m, n);
    var r := Swapped(s, m, n);
    assert r == TakenOut(s, m) + [s[m]];
  }

  /** The unsorted part after selecting element m as its smallest. */
  lemma SelectedStep<T>(done: seq<T>, rest: seq<T>, m: nat, key: T -> int)
    requires m < |rest| && forall j :: 0 <= j < |rest| ==> key(rest[m]) <= key(rest[j])
    requires NotAbove(done, rest, key)
    ensures NotAbove(done + [rest[m]], Swapped(rest, 0, m)[1..], key)
    ensures Ascending(done, key) ==> Ascending(done + [rest[m]], key)
    ensures Strict(done, key) && (done == [] || key(done[|done| - 1]) != key(rest[m])) ==> Strict(done + [rest[m]], key)
  {
    var r := Swapped(rest, 0, m)[1..];
    forall j | 0 <= j < |r|
      ensures r[j] == rest[if j + 1 == m then 0 else j + 1]
    {
    }
  }

  lemma RemovedStep<T(!new)>(done: seq<T>, rest: seq<T>, m: nat, key: T -> int, freed: seq<T>)
    requires m < |rest| && done != [] && key(done[|done| - 1]) == key(rest[m])
    requires NotAbove(done, rest, key) && AllHaveKey(freed, done, key)
    ensures NotAbove(done, TakenOut(rest, m), key) && AllHaveKey(freed + [rest[m]], done, key)
  {
    var r := TakenOut(rest, m);
    assert forall j :: 0 <= j < |r| ==> r[j] == rest[if j == m then |rest| - 1 else j];
    forall i | 0 <= i < |freed + [rest[m]]|
      ensures HasKey(done, key, (freed + [rest[m]])[i])
    {
      if i < |freed| {
        assert HasKey(done, key, freed[i]);
      } else {
        assert key(done[|done| - 1]) == key(rest[m]);
      }
    }
  }

  lemma KeptKeys<T(!new)>(freed: seq<T>, done: seq<T>, x: T, key: T -> int)
    requires AllHaveKey(freed, done, key)
    ensures AllHaveKey(freed, done + [x], key)
  {
    forall i | 0 <= i < |freed|
      ensures HasKey(done + [x], key, freed[i])
    {
      assert HasKey(done, key, freed[i]);
      var j :| 0 <= j < |done| && key(done[j]) == key(freed[i]);
      assert (done + [x])[j] == done[j];
    }
  }

  class ItemList<T(!new)> {
    var items: array<T>
    var size: nat

    ghost predicate Valid()
      reads this
    {
      size <= items.Length
    }

    ghost function Contents(): seq<T>
      requires Valid()
      reads this, items
    {
      items[..size]
    }

    constructor (buffer: array<T>, n: nat)
      requires n <= buffer.Length
      ensures Valid() && items == buffer && size == n
    {
      items, size := buffer, n;
    }

    /** jr_AListDeleteRangeFromPtr for one element. */
    method DeleteOne(i: nat)
      requires Valid() && i < size
      modifies items, `size
      ensures Valid() && size == old(size) - 1
      ensures Contents() == old(Contents()[..i]) + old(Contents()[i + 1..])
    {
      for j := i to size - 1
        invariant size == old(size) && Valid()
        invariant forall k :: 0 <= k < size ==> items[k] == old(items[if i <= k < j then k + 1 else k])
      {
        items[j] := items[j + 1];
      }
      size := size - 1;
      ghost var was := old(Contents());
      assert forall k :: 0 <= k < size ==> items[k] == (was[..i] + was[i + 1..])[k];
    }

    /** The first of the smallest elements from w to t. */
    method Smallest(w: nat, t: nat, key: T -> int) returns (m: nat)
      requires Valid() && w <= t < size
      ensures w <= m <= t && forall j :: w <= j <= t ==> key(items[m]) <= key(items[j])
      ensures forall j :: w <= j < m ==> key(items[m]) < key(items[j])
    {
      m := w;
      for curr := w + 1 to t + 1
        invariant w <= m < curr
        invariant forall j :: w <= j < curr ==> key(items[m]) <= key(items[j])
        invariant forall j :: w <= j < m ==> key(items[m]) < key(items[j])
      {
        if key(items[curr]) < key(items[m]) {
          m := curr;
        }
      }
    }

    /** Exchanging two elements, the first of a stretch and another one of it. */
    method Exchange(w: nat, m: nat)
      requires Valid() && w <= m < size
      modifies items
      ensures Contents() == Swapped(old(Contents()), w, m)
    {
      ghost var s := Contents();
      if m != w {
        items[w], items[m] := items[m], items[w];
      }
      assert forall k :: 0 <= k < size ==> items[k] == Swapped(s, w, m)[k];
    }

    /** The smallest of the unsorted elements becomes the last sorted one. */
    method Select(w: nat, m: nat, key: T -> int, ghost front: seq<T>, ghost done: seq<T>, ghost rest: seq<T>, ghost behind: seq<T>)
      returns (ghost done2: seq<T>, ghost rest2: seq<T>)
      requires Valid() && Laid(Contents(), front, done, rest, behind) && w == |front| + |done| && w <= m < w + |rest|
      requires forall j :: 0 <= j < |rest| ==> key(rest[m - w]) <= key(rest[j])
      requires NotAbove(done, rest, key)
      modifies items
      ensures Laid(Contents(), front, done2, rest2, behind)
      ensures |rest2| == |rest| - 1 && done2 == done + [rest[m - w]]
      ensures multiset(done2 + rest2) == multiset(done + rest) && NotAbove(done2, rest2, key)
      ensures Ascending(done, key) ==> Ascending(done2, key)
      ensures Strict(done, key) && (done == [] || key(done[|done| - 1]) != key(rest[m - w])) ==> Strict(done2, key)
    {
      hide Ascending, Strict, NotAbove;
      SelectedStep(done, rest, m - w, key);
      SelectedSplit(front, done, rest, behind, m - w);
      Exchange(w, m);
      done2, rest2 := done + [rest[m - w]], Swapped(rest, 0, m - w)[1..];
    }

    method CopyTail(m: nat, t: nat)
      requires Valid() && m <= t < size
      modifies items
      ensures Contents() == old(Contents())[m := old(Contents()[t])]
    {
      if m != t {
        items[m] := items[t];
      }
    }

    static lemma TakenOutLength(s: seq<T>, m: nat)
      requires m < |s|
      ensures |TakenOut(s, m)| == |s| - 1
    {
    }

    /** A duplicate among the unsorted elements is deleted, the last of them
        taking its place. */
    method Remove(w: nat, t: nat, m: nat, ghost front: seq<T>, ghost done: seq<T>, ghost rest: seq<T>, ghost behind: seq<T>)
      returns (ghost rest2: seq<T>)
      requires Valid() && Laid(Contents(), front, done, rest, behind) && w == |front| + |done|
      requires w <= m <= t && t + 1 == w + |rest| && t < size
      modifies items, `size
      ensures Valid() && size == old(size) - 1 && rest2 == TakenOut(rest, m - w) && |rest2| == |rest| - 1
      ensures Laid(Contents(), front, done, rest2, behind)
      ensures multiset(done + rest) == multiset(done + rest2) + multiset{rest[m - w]}
    {
      hide TakenOut, Laid;
      RemovedLaid(Contents(), w, t, m, front, done, rest, behind);
      CopyTail(m, t);
      DeleteOne(t);
      rest2 := TakenOut(rest, m - w);
    }

    /** Reading the unsorted part, and the last sorted element, off the array. */
    lemma Read(w: nat, front: seq<T>, done: seq<T>, rest: seq<T>, behind: seq<T>)
      requires Valid() && Laid(Contents(), front, done, rest, behind) && w == |front| + |done|
      ensures size == |front| + |done| + |rest| + |behind|
      ensures forall j :: 0 <= j < |rest| ==> items[w + j] == rest[j]
      ensures done != [] ==> items[w - 1] == done[|done| - 1]
    {
      hide Laid;
      Located(Contents(), front, done, rest, behind);
      assert forall j :: 0 <= j < size ==> items[j] == Contents()[j];
    }

    /** The smallest of the unsorted elements. */
    method Find(w: nat, t: nat, key: T -> int, ghost front: seq<T>, ghost done: seq<T>, ghost rest: seq<T>, ghost behind: seq<T>)
      returns (m: nat)
      requires Valid() && Laid(Contents(), front, done, rest, behind) && w == |front| + |done|
      requires w <= t && t + 1 == w + |rest|
      ensures w <= m <= t < size && items[m] == rest[m - w]
      ensures forall j :: 0 <= j < |rest| ==> key(rest[m - w]) <= key(rest[j])
      ensures done != [] ==> items[w - 1] == done[|done| - 1]
    {
      Read(w, front, done, rest, behind);
      m := Smallest(w, t, key);
      SmallestOf(items[..], rest, w, m, key);
    }

    /** jr_AListSortRange; a range that reaches past the end of the list is sorted up
        to there. */
    method SortRange(start: nat, num: int, key: T -> int)
      requires Valid()
      modifies items
      ensures Valid()
      ensures var s, end := old(Contents()), if start + num > size then size else start + num;
              if end < start then Contents() == s
              else
                && Contents()[..start] == s[..start] && Contents()[end..] == s[end..]
                && Ascending(Contents()[start..end], key)
                && multiset(Contents()[start..end]) == multiset(s[start..end])
    {
      var n := if start + num > size then size - start else num;
      if n <= 1 {
        return;
      }
      hide Laid, Strict, AllHaveKey, Conserved, NotAbove, Ascending;
      ghost var s := Contents();
      ThreeParts(s, start, start + n, key);
      ghost var done := SortLaid(start, start + n - 1, key, s[..start], s[start..start + n], s[start + n..]);
      Assembled(Contents(), s[..start], done, [], s[start + n..]);
    }

    /** The same elements, in any order. */
    static ghost predicate SameElements(a: seq<T>, b: seq<T>) {
      multiset(a) == multiset(b)
    }

    /** The passes of jr_AListSortRange. */
    method SortLaid(start: nat, tail: nat, key: T -> int, ghost front: seq<T>, ghost range: seq<T>, ghost behind: seq<T>)
      returns (ghost done: seq<T>)
      requires Valid() && Laid(Contents(), front, [], range, behind)
      requires |front| == start <= tail < size && tail + 1 == start + |range|
      requires Ascending([], key) && NotAbove([], range, key)
      modifies items
      ensures Laid(Contents(), front, done, [], behind) && |done| == |range|
      ensures multiset(done) == multiset(range) && Ascending(done, key)
    {
      hide Ascending, NotAbove, Strict, Laid, SameElements;
      ghost var rest := range;
      done := [];
      SameStart(range);
      var w := start;
      while w < tail
        invariant start <= w <= tail < size
        invariant Laid(Contents(), front, done, rest, behind)
        invariant |done| == w - start && |rest| == tail + 1 - w && SameElements(done + rest, range)
        invariant Ascending(done, key) && NotAbove(done, rest, key)
      {
        var m := Find(w, tail, key, front, done, rest, behind);
        ghost var kept := done + rest;
        done, rest := Select(w, m, key, front, done, rest, behind);
        StillSame(kept, done + rest, range);
        w := w + 1;
      }
      LastOne(done, rest, key);
      LaidDone(Contents(), front, done, rest, behind, range);
      done := done + rest;
    }

    static lemma SameStart(range: seq<T>)
      ensures SameElements([] + range, range)
    {
      assert [] + range == range;
    }

    static lemma StillSame(a: seq<T>, b: seq<T>, range: seq<T>)
      requires SameElements(a, range) && multiset(b) == multiset(a)
      ensures SameElements(b, range)
    {
    }

    static lemma LaidDone(c: seq<T>, front: seq<T>, done: seq<T>, rest: seq<T>, behind: seq<T>, range: seq<T>)
      requires Laid(c, front, done, rest, behind)
      ensures Laid(c, front, done + rest, [], behind)
      ensures SameElements(done + rest, range) ==> multiset(done + rest) == multiset(range)
    {
    }

    static lemma SmallestOf(all: seq<T>, rest: seq<T>, w: nat, m: nat, key: T -> int)
      requires w <= m < w + |rest| <= |all| && forall j :: 0 <= j < |rest| ==> all[w + j] == rest[j]
      requires forall j :: w <= j < w + |rest| ==> key(all[m]) <= key(all[j])
      ensures forall j :: 0 <= j < |rest| ==> key(rest[m - w]) <= key(rest[j])
    {
      assert all[m] == rest[m - w];
      forall j | 0 <= j < |rest|
        ensures key(rest[m - w]) <= key(rest[j])
      {
        assert all[w + j] == rest[j];
      }
    }

    static lemma ThreeParts(s: seq<T>, a: nat, b: nat, key: T -> int)
      requires a <= b <= |s|
      ensures Laid(s, s[..a], [], s[a..b], s[b..])
      ensures Ascending([], key) && Strict([], key) && NotAbove([], s[a..b], key) && AllHaveKey([], [], key)
      ensures Conserved([] + s[a..b], [], s[a..b])
    {
      Whole(s[a..b]);
    }

    static lemma Whole(s: seq<T>)
      ensures [] + s == s && Conserved(s, [], s)
    {
    }

    static lemma Assembled(c: seq<T>, front: seq<T>, done: seq<T>, rest: seq<T>, behind: seq<T>)
      requires Laid(c, front, done, rest, behind)
      ensures var n := |done| + |rest|;
              && |c| == |front| + n + |behind|
              && c[..|front|] == front && c[|front|..|front| + n] == done + rest && c[|front| + n..] == behind
    {
    }

    /** Where the elements of the unsorted part, and the last sorted one, are. */
    static lemma Located(c: seq<T>, front: seq<T>, done: seq<T>, rest: seq<T>, behind: seq<T>)
      requires Laid(c, front, done, rest, behind)
      ensures |c| == |front| + |done| + |rest| + |behind|
      ensures var w := |front| + |done|;
              && (forall j :: 0 <= j < |rest| ==> c[w + j] == rest[j])
              && (done != [] ==> c[w - 1] == done[|done| - 1])
    {
    }

    /** Exchanging the first of the unsorted elements with the one selected. */
    static lemma SelectedSplit(front: seq<T>, done: seq<T>, rest: seq<T>, behind: seq<T>, m: nat)
      requires m < |rest|
      ensures var c := front + done + rest + behind;
              var w := |front| + |done|;
              Swapped(c, w, w + m) == front + (done + [rest[m]]) + Swapped(rest, 0, m)[1..] + behind
      ensures multiset((done + [rest[m]]) + Swapped(rest, 0, m)[1..]) == multiset(done + rest)
    {
      SwappedMultiset(rest, 0, m);
      var r := Swapped(rest, 0, m);
      assert (done + [rest[m]]) + r[1..] == done + r;
    }

    /** The last of the unsorted elements put in the place of the one selected. */
    static lemma RemovedSplit(c: seq<T>, front: seq<T>, done: seq<T>, rest: seq<T>, behind: seq<T>, m: nat)
      requires m < |rest| && c == front + done + rest + behind
      ensures var w := |front| + |done|;
              var t := w + |rest| - 1;
              && c[t] == rest[|rest| - 1]
              && c[w + m := c[t]][..t] + c[w + m := c[t]][t + 1..] == front + done + TakenOut(rest, m) + behind
    {
    }

    static lemma RemovedItems(done: seq<T>, rest: seq<T>, m: nat)
      requires m < |rest|
      ensures multiset(done + rest) == multiset(done + TakenOut(rest, m)) + multiset{rest[m]}
    {
      TakenOutMultiset(rest, m);
      assert multiset(done + rest) == multiset(done) + multiset(rest);
    }

    static lemma RemovedLaid(c: seq<T>, w: nat, t: nat, m: nat, front: seq<T>, done: seq<T>, rest: seq<T>, behind: seq<T>)
      requires Laid(c, front, done, rest, behind) && w == |front| + |done| && w <= m <= t && t + 1 == w + |rest|
      ensures t < |c|
      ensures Laid(c[m := c[t]][..t] + c[m := c[t]][t + 1..], front, done, TakenOut(rest, m - w), behind)
      ensures |TakenOut(rest, m - w)| == |rest| - 1
      ensures multiset(done + rest) == multiset(done + TakenOut(rest, m - w)) + multiset{rest[m - w]}
    {
      hide TakenOut;
      TakenOutLength(rest, m - w);
      RemovedSplit(c, front, done, rest, behind, m - w);
      RemovedItems(done, rest, m - w);
    }

    static lemma LastOne(done: seq<T>, last: seq<T>, key: T -> int)
      requires Ascending(done, key) && NotAbove(done, last, key) && |last| == 1
      ensures Ascending(done + last, key)
    {
    }

    /** jr_AListSortUniquelyRangeFreeingDeletes; freed are the elements passed to
        the free function, in order. The range ends strictly ascending, what was
        freed and what is kept is together what was there, every freed element
        compares equal to a kept one, and the rest of the list is as before. A range
        that reaches past the end of the list is cut off there. */
    method SortUniquelyRange(start: nat, num: int, key: T -> int) returns (freed: seq<T>)
      requires Valid()
      modifies items, `size
      ensures Valid() && size == old(size) - |freed|
      ensures var s, end := old(Contents()), if start + num > old(size) then old(size) else start + num;
              if end < start then freed == [] && Contents() == s
              else
                var left := end - |freed|;
                && start <= left <= size && (start < end ==> start < left)
                && Contents()[..start] == s[..start] && Contents()[left..] == s[end..]
                && Strict(Contents()[start..left], key)
                && Conserved(Contents()[start..left], freed, s[start..end])
                && AllHaveKey(freed, Contents()[start..left], key)
    {
      freed := [];
      var n := if start + num > size then size - start else num;
      if n <= 1 {
        return;
      }
      hide Laid, Strict, AllHaveKey, Conserved, NotAbove, Ascending;
      ghost var s := Contents();
      ThreeParts(s, start, start + n, key);
      ghost var done;
      freed, done := SortUniquelyLaid(start, start + n - 1, key, s[..start], s[start..start + n], s[start + n..]);
      Assembled(Contents(), s[..start], done, [], s[start + n..]);
      assert done + [] == done;
    }

    /** The passes of jr_AListSortUniquelyRangeFreeingDeletes. */
    method SortUniquelyLaid(start: nat, tail: nat, key: T -> int, ghost front: seq<T>, ghost range: seq<T>, ghost behind: seq<T>)
      returns (freed: seq<T>, ghost done: seq<T>)
      requires Valid() && Laid(Contents(), front, [], range, behind)
      requires |front| == start <= tail < size && tail + 1 == start + |range|
      requires Strict([], key) && NotAbove([], range, key) && AllHaveKey([], [], key) && Conserved([] + range, [], range)
      modifies items, `size
      ensures Valid() && size == old(size) - |freed|
      ensures Laid(Contents(), front, done, [], behind) && 0 < |done| == |range| - |freed|
      ensures Strict(done, key) && Conserved(done, freed, range) && AllHaveKey(freed, done, key)
    {
      hide Strict, NotAbove, AllHaveKey, Ascending, Laid, Conserved, TakenOut;
      freed, done := [], [];
      ghost var rest := range;
      var w, t := start, tail;
      while w <= t
        invariant start <= w <= t + 1 <= size == old(size) - |freed| && t == tail - |freed| && Valid()
        invariant Laid(Contents(), front, done, rest, behind)
        invariant |done| == w - start && |rest| == t + 1 - w && (w == start ==> freed == [])
        invariant Conserved(done + rest, freed, range)
        invariant Strict(done, key) && NotAbove(done, rest, key) && AllHaveKey(freed, done, key)
        decreases t + 1 - w
      {
        var m := Find(w, t, key, front, done, rest, behind);
        ghost var before, kept, least := freed, done + rest, rest[m - w];
        if w != start && key(items[w - 1]) == key(items[m]) {
          RemovedStep(done, rest, m - w, key, freed);
          freed := freed + [items[m]];
          rest := Remove(w, t, m, front, done, rest, behind);
          FreedOne(kept, done + rest, before, least, range);
          t := t - 1;
        } else {
          KeptKeys(freed, done, rest[m - w], key);
          done, rest := Select(w, m, key, front, done, rest, behind);
          SameKept(kept, done + rest, freed, range);
          w := w + 1;
        }
      }
      assert rest == [] && done + rest == done;
    }

    static lemma SameKept(kept: seq<T>, kept2: seq<T>, freed: seq<T>, range: seq<T>)
      requires Conserved(kept, freed, range) && multiset(kept2) == multiset(kept)
      ensures Conserved(kept2, freed, range)
    {
    }
  }
}
