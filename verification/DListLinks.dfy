/** Inserting into and extracting from a doubly linked list kept in the elements
    of an array. */
module DListLinks {
  import opened Sequences
  import opened Relinking

  function InsertedAt(order: seq<nat>, p: nat, x: nat): seq<nat>
    requires p <= |order|
  {
    order[..p] + [x] + order[p..]
  }

  lemma PtrInserted(g: Space, order: seq<nat>, p: nat, x: nat, q: int)
    requires p <= |order|
    ensures PtrAt(g, InsertedAt(order, p, x), q) ==
      if q < p then PtrAt(g, order, q) else if q == p then Addr(g, x) else PtrAt(g, order, q - 1)
  {
    hide Addr;
  }

  lemma PtrRemoved(g: Space, order: seq<nat>, p: nat, q: int)
    requires p < |order|
    ensures PtrAt(g, RemovedAt(order, p), q) == PtrAt(g, order, if q < p then q else q + 1)
  {
    hide Addr;
  }

  /** The row of slot x after slot at was inserted at position p. */
  function InsertedRow(g: Space, rows: seq<Row>, k: nat, order: seq<nat>, p: nat, at: nat, x: nat): Row
    requires p <= |order| && x < |rows| && |rows[x]| >= k + 2
  {
    if x == at then rows[x][k := PtrAt(g, order, p - 1)][k + 1 := PtrAt(g, order, p)]
    else if p > 0 && x == order[p - 1] then rows[x][k + 1 := Addr(g, at)]
    else if p < |order| && x == order[p] then rows[x][k := Addr(g, at)]
    else rows[x]
  }

  /** The row of slot x after position p was extracted. */
  function RemovedRow(g: Space, rows: seq<Row>, k: nat, order: seq<nat>, p: nat, x: nat): Row
    requires p < |order| && x < |rows| && |rows[x]| >= k + 2
  {
    if x == order[p] then rows[x][k := 0][k + 1 := 0]
    else if p > 0 && x == order[p - 1] then rows[x][k + 1 := PtrAt(g, order, p + 1)]
    else if p + 1 < |order| && x == order[p + 1] then rows[x][k := PtrAt(g, order, p - 1)]
    else rows[x]
  }

  function InsertedEnds(g: Space, c: Container, order: seq<nat>, p: nat, at: nat): Container {
    c.(head := if p == 0 then Addr(g, at) else c.head, tail := if p == |order| then Addr(g, at) else c.tail)
  }

  function RemovedEnds(g: Space, c: Container, order: seq<nat>, p: nat): Container {
    c.(head := if p == 0 then PtrAt(g, order, 1) else c.head,
       tail := if p == |order| - 1 then PtrAt(g, order, p - 1) else c.tail)
  }

  lemma InsertedNoDup(order: seq<nat>, p: nat, x: nat)
    requires p <= |order| && NoDup(order) && x !in order
    ensures NoDup(InsertedAt(order, p, x))
  {
    var r := InsertedAt(order, p, x);
    forall i, j | 0 <= i < j < |r|
      ensures r[i] != r[j]
    {
      assert r[i] == if i < p then order[i] else if i == p then x else order[i - 1];
      assert r[j] == if j < p then order[j] else if j == p then x else order[j - 1];
    }
  }

  /** The links of one row after an insert. */
  lemma InsertedLinks(g: Space, rows: seq<Row>, c: Container, order: seq<nat>, p: nat, at: nat, q: nat)
    requires c.DList? && Reads(g, rows, c, order) && p <= |order| && at !in order
    requires at < |rows| && |rows[at]| >= c.column + 2 && q <= |order|
    ensures var order2 := InsertedAt(order, p, at);
            && order2[q] < |rows| && |rows[order2[q]]| >= c.column + 2
            && Linked(g, InsertedRow(g, rows, c.column, order, p, at, order2[q]), c, order2, q)
  {
    hide Addr, PtrAt;
    var order2 := InsertedAt(order, p, at);
    PtrInserted(g, order, p, at, q - 1);
    PtrInserted(g, order, p, at, q + 1);
    if q != p {
      var o := if q < p then q else q - 1;
      assert order2[q] == order[o] && order[o] in order && Linked(g, rows[order[o]], c, order, o);
      assert p > 0 && order[o] == order[p - 1] ==> o == p - 1;
      assert p < |order| && order[o] == order[p] ==> o == p;
    }
  }

  lemma RemovedLinks(g: Space, rows: seq<Row>, c: Container, order: seq<nat>, p: nat, q: nat)
    requires c.DList? && Reads(g, rows, c, order) && p < |order| && q < |order| - 1
    ensures var order2 := RemovedAt(order, p);
            && order2[q] < |rows| && |rows[order2[q]]| >= c.column + 2
            && Linked(g, RemovedRow(g, rows, c.column, order, p, order2[q]), c, order2, q)
  {
    hide Addr, PtrAt;
    var order2 := RemovedAt(order, p);
    PtrRemoved(g, order, p, q - 1);
    PtrRemoved(g, order, p, q + 1);
    var o := if q < p then q else q + 1;
    assert order2[q] == order[o] && Linked(g, rows[order[o]], c, order, o);
    assert order[o] == order[p] ==> o == p;
    assert p > 0 && order[o] == order[p - 1] ==> o == p - 1;
    assert p + 1 < |order| && order[o] == order[p + 1] ==> o == p + 1;
  }

  /** Inserting at position p. */
  lemma InsertReads(g: Space, rows: seq<Row>, rows2: seq<Row>, c: Container, order: seq<nat>, p: nat, at: nat)
    requires c.DList? && Reads(g, rows, c, order) && p <= |order| && at !in order && at < |rows| && |rows2| == |rows|
    requires forall x :: 0 <= x < |rows| ==>
      |rows[x]| >= c.column + 2 && rows2[x] == InsertedRow(g, rows, c.column, order, p, at, x)
    ensures Reads(g, rows2, InsertedEnds(g, c, order, p, at), InsertedAt(order, p, at))
    ensures OnlyLinks(rows, rows2, c)
  {
    var order2, c2 := InsertedAt(order, p, at), InsertedEnds(g, c, order, p, at);
    InsertedNoDup(order, p, at);
    InsertedLength(order, p, at);
    InsertEnds(g, rows, c, order, p, at);
    InsertOnlyLinks(g, rows, rows2, c, order, p, at);
    hide Addr, PtrAt, InsertedAt, NoDup, InsertedRow, Linked, OnlyLinks, InsertedEnds;
    forall q | 0 <= q < |order2|
      ensures order2[q] < |rows2| && Linked(g, rows2[order2[q]], c2, order2, q)
    {
      InsertedLinks(g, rows, c, order, p, at, q);
      SameFields(g, rows2[order2[q]], c, c2, order2, q);
    }
  }

  lemma InsertEnds(g: Space, rows: seq<Row>, c: Container, order: seq<nat>, p: nat, at: nat)
    requires Reads(g, rows, c, order) && p <= |order|
    ensures var order2, c2 := InsertedAt(order, p, at), InsertedEnds(g, c, order, p, at);
            && c2.head == PtrAt(g, order2, 0) && c2.tail == PtrAt(g, order2, |order2| - 1)
            && c2 == c.(head := c2.head, tail := c2.tail)
  {
    hide Addr, Linked, NoDup;
    PtrInserted(g, order, p, at, 0);
    PtrInserted(g, order, p, at, |order|);
  }

  lemma RemoveEnds(g: Space, rows: seq<Row>, c: Container, order: seq<nat>, p: nat)
    requires Reads(g, rows, c, order) && p < |order|
    ensures var order2, c2 := RemovedAt(order, p), RemovedEnds(g, c, order, p);
            && c2.head == PtrAt(g, order2, 0) && c2.tail == PtrAt(g, order2, |order2| - 1)
            && c2 == c.(head := c2.head, tail := c2.tail)
  {
    hide Addr, Linked, NoDup;
    PtrRemoved(g, order, p, 0);
    PtrRemoved(g, order, p, |order| - 2);
    EndPointers(g, order, p);
  }

  lemma InsertOnlyLinks(g: Space, rows: seq<Row>, rows2: seq<Row>, c: Container, order: seq<nat>, p: nat, at: nat)
    requires c.DList? && p <= |order| && |rows2| == |rows|
    requires forall x :: 0 <= x < |rows| ==>
      |rows[x]| >= c.column + 2 && rows2[x] == InsertedRow(g, rows, c.column, order, p, at, x)
    ensures OnlyLinks(rows, rows2, c)
  {
    hide InsertedRow;
    forall x | 0 <= x < |rows|
      ensures SameBut(rows[x], rows2[x], c)
    {
      InsertedRowLinks(g, rows, c, order, p, at, x);
    }
  }

  lemma RemoveOnlyLinks(g: Space, rows: seq<Row>, rows2: seq<Row>, c: Container, order: seq<nat>, p: nat)
    requires c.DList? && p < |order| && |rows2| == |rows|
    requires forall x :: 0 <= x < |rows| ==>
      |rows[x]| >= c.column + 2 && rows2[x] == RemovedRow(g, rows, c.column, order, p, x)
    ensures OnlyLinks(rows, rows2, c)
  {
    hide RemovedRow;
    forall x | 0 <= x < |rows|
      ensures SameBut(rows[x], rows2[x], c)
    {
      RemovedRowLinks(g, rows, c, order, p, x);
    }
  }

  lemma InsertedRowLinks(g: Space, rows: seq<Row>, c: Container, order: seq<nat>, p: nat, at: nat, x: nat)
    requires c.DList? && p <= |order| && x < |rows| && |rows[x]| >= c.column + 2
    ensures SameBut(rows[x], InsertedRow(g, rows, c.column, order, p, at, x), c)
  {
  }

  lemma RemovedRowLinks(g: Space, rows: seq<Row>, c: Container, order: seq<nat>, p: nat, x: nat)
    requires c.DList? && p < |order| && x < |rows| && |rows[x]| >= c.column + 2
    ensures SameBut(rows[x], RemovedRow(g, rows, c.column, order, p, x), c)
  {
  }

  lemma InsertedLength(order: seq<nat>, p: nat, at: nat)
    requires p <= |order|
    ensures |InsertedAt(order, p, at)| == |order| + 1
    ensures forall x :: x in InsertedAt(order, p, at) <==> x == at || x in order
  {
    assert order == order[..p] + order[p..];
  }

  lemma RemoveReads(g: Space, rows: seq<Row>, rows2: seq<Row>, c: Container, order: seq<nat>, p: nat)
    requires c.DList? && Reads(g, rows, c, order) && p < |order| && |rows2| == |rows|
    requires forall x :: 0 <= x < |rows| ==>
      |rows[x]| >= c.column + 2 && rows2[x] == RemovedRow(g, rows, c.column, order, p, x)
    ensures Reads(g, rows2, RemovedEnds(g, c, order, p), RemovedAt(order, p))
    ensures OnlyLinks(rows, rows2, c)
  {
    var order2, c2 := RemovedAt(order, p), RemovedEnds(g, c, order, p);
    RemovedElements(order, p);
    assert |order2| == |order| - 1;
    RemoveEnds(g, rows, c, order, p);
    RemoveOnlyLinks(g, rows, rows2, c, order, p);
    hide Addr, PtrAt, RemovedAt, NoDup, RemovedRow, Linked, OnlyLinks, RemovedEnds;
    forall q | 0 <= q < |order2|
      ensures order2[q] < |rows2| && Linked(g, rows2[order2[q]], c2, order2, q)
    {
      RemovedLinks(g, rows, c, order, p, q);
      SameFields(g, rows2[order2[q]], c, c2, order2, q);
    }
  }

  lemma EndPointers(g: Space, order: seq<nat>, p: nat)
    ensures PtrAt(g, order, -1) == 0 && PtrAt(g, order, |order|) == 0
  {
  }
}
