/** What moving elements of an array does to all the containers threaded through
    them: one container's repair leaves the others and the data words alone. */
module RelocationSteps {
  import opened Sequences
  import opened Relinking
  import opened DListLinks

  /** jr_TransformAListPtr; the opposite direction undoes it. */
  function TransformPtr(ptr: int, magnitude: int, whichWay: int): int {
    if whichWay > 0 then ptr + magnitude else ptr - magnitude
  }

  /** Word k belongs to no container's links. */
  ghost predicate IsData(cs: seq<Container>, k: nat) {
    forall j :: 0 <= j < |cs| ==> !(cs[j].column <= k < cs[j].column + Width(cs[j]))
  }

  ghost predicate SameData(cs: seq<Container>, row: Row, row2: Row) {
    |row2| == |row| && forall k :: 0 <= k < |row| && IsData(cs, k) ==> row2[k] == row[k]
  }

  /** Containers may differ in head and tail only. */
  ghost predicate SameLayout(cs: seq<Container>, cs2: seq<Container>) {
    |cs2| == |cs| && forall j :: 0 <= j < |cs| ==> SameColumn(cs[j], cs2[j])
  }

  ghost predicate SameColumn(c: Container, c2: Container) {
    c2 == c.(head := c2.head, tail := c2.tail)
  }

  /** The link fields lie within an element and do not overlap. */
  ghost predicate LaidOut(cs: seq<Container>, size: nat) {
    && (forall j :: 0 <= j < |cs| ==> cs[j].column + Width(cs[j]) <= size)
    && (forall i, j :: 0 <= i < |cs| && 0 <= j < |cs| && i != j ==> Apart(cs[i], cs[j]))
  }

  ghost predicate Within(order: seq<nat>, live: set<nat>) {
    forall p :: 0 <= p < |order| ==> order[p] in live
  }

  /** The container reads as the sequence of slots, all of them live. */
  ghost predicate Settled(g: Space, rows: seq<Row>, c: Container, order: seq<nat>, live: set<nat>) {
    Reads(g, rows, c, order) && NullElsewhere(rows, c, order, live) && Within(order, live)
  }

  /** The container with the head and tail that its sequence of slots asks for. */
  function Rightful(g: Space, c: Container, order: seq<nat>): Container {
    c.(head := PtrAt(g, order, 0), tail := PtrAt(g, order, |order| - 1))
  }

  lemma RightfulIs(g: Space, rows: seq<Row>, c: Container, d: Container, order: seq<nat>, live: set<nat>)
    requires Settled(g, rows, c, order, live) && SameColumn(c, d)
    ensures Rightful(g, d, order) == c
  {
    hide PtrAt, NoDup, Linked, NullElsewhere, Within;
  }

  /** Turning the rightful ends after a move makes the rightful ends. */
  lemma RightfulTurned(g: Space, c: Container, order: seq<nat>, src: nat, to: nat)
    requires Positive(g)
    ensures TurnedEnds(Rightful(g, c, order), Addr(g, src), Addr(g, to)) == Rightful(g, c, Moved(order, src, to))
  {
    hide Addr, PtrAt;
    PtrMoved(g, order, src, to, 0);
    PtrMoved(g, order, src, to, |order| - 1);
  }

  /** The element of slot src has been copied to slot to; its links have not
      been repaired yet. */
  ghost predicate Pending(g: Space, rows: seq<Row>, c: Container, order: seq<nat>, src: nat, to: nat, live: set<nat>) {
    && Copied(g, rows, c, order, src, to) && NullElsewhere(rows, c, order, live)
    && Within(order, live) && src in live && to !in live
  }

  lemma OtherPending(g: Space, rows: seq<Row>, rows2: seq<Row>, c: Container, d: Container, order: seq<nat>, src: nat, to: nat, live: set<nat>)
    requires Pending(g, rows, d, order, src, to, live) && OnlyLinks(rows, rows2, c) && Apart(c, d)
    ensures Pending(g, rows2, d, order, src, to, live)
  {
    OtherCopied(g, rows, rows2, c, d, order, src, to);
    OtherContainer(g, rows, rows2, c, d, order, live);
  }

  lemma OtherSettled(g: Space, rows: seq<Row>, rows2: seq<Row>, c: Container, d: Container, order: seq<nat>, live: set<nat>)
    requires Settled(g, rows, d, order, live) && OnlyLinks(rows, rows2, c) && Apart(c, d)
    ensures Settled(g, rows2, d, order, live)
  {
    OtherContainer(g, rows, rows2, c, d, order, live);
  }

  /** The link fields of a moved element: of an element in the list at position
      p they lead to its neighbours; an element that is not in the list (p is
      -1) has null links if the list is doubly linked. */
  lemma PendingLinks(g: Space, rows: seq<Row>, c: Container, order: seq<nat>, src: nat, to: nat, live: set<nat>) returns (p: int)
    requires Positive(g) && Pending(g, rows, c, order, src, to, live)
    ensures -1 <= p < |order| && |rows[to]| >= c.column + Width(c)
    ensures p == -1 ==> src !in order && (c.DList? ==> rows[to][c.column] == 0 && rows[to][c.column + 1] == 0)
    ensures p >= 0 ==> order[p] == src && Neighbour(g, rows, c, order, p - 1) && Neighbour(g, rows, c, order, p + 1)
    ensures p >= 0 && c.DList? ==> rows[to][c.column] == PtrAt(g, order, p - 1) && rows[to][c.column + 1] == PtrAt(g, order, p + 1)
  {
    hide Addr, Slot, NoDup, PtrAt;
    if src in order {
      p :| 0 <= p < |order| && order[p] == src;
      assert Linked(g, rows[order[p]], c, order, p);
      NeighbourHolds(g, rows, c, order, p - 1);
      NeighbourHolds(g, rows, c, order, p + 1);
    } else {
      p := -1;
      assert c.DList? ==> NullLinks(rows[src], c);
    }
  }

  /** The address kept for position q can be followed, or is null. */
  ghost predicate Neighbour(g: Space, rows: seq<Row>, c: Container, order: seq<nat>, q: int)
    requires Positive(g)
  {
    if 0 <= q < |order| then
      PtrAt(g, order, q) != 0 && Slot(g, PtrAt(g, order, q)) == order[q] < |rows| && |rows[order[q]]| >= c.column + Width(c)
    else PtrAt(g, order, q) == 0
  }

  lemma NeighbourHolds(g: Space, rows: seq<Row>, c: Container, order: seq<nat>, q: int)
    requires Positive(g) && Reads(g, rows, c, order)
    ensures Neighbour(g, rows, c, order, q)
  {
    hide Addr, Slot, NoDup;
    if 0 <= q < |order| {
      assert Linked(g, rows[order[q]], c, order, q);
      AddrFacts(g, order[q], 0);
      SlotOfAddr(g, order[q]);
    }
  }

  /** What the move of an element must make of a doubly linked list. */
  lemma DListMoveDone(g: Space, rows: seq<Row>, c: Container, c2: Container, order: seq<nat>, src: nat, to: nat, live: set<nat>, p: nat)
    requires Positive(g) && c.DList? && Pending(g, rows, c, order, src, to, live) && p < |order| && order[p] == src
    requires p > 0 ==> order[p - 1] < |rows| && |rows[order[p - 1]]| >= c.column + 2
    requires p + 1 < |order| ==> order[p + 1] < |rows| && |rows[order[p + 1]]| >= c.column + 2
    requires c2 == c.(head := Turned(c.head, Addr(g, src), Addr(g, to)), tail := Turned(c.tail, Addr(g, src), Addr(g, to)))
    ensures Settled(g, NeighboursTurned(rows, order, p, c.column, Addr(g, to)), c2, Moved(order, src, to), live - {src} + {to})
    ensures OnlyLinks(rows, NeighboursTurned(rows, order, p, c.column, Addr(g, to)), c)
  {
    var rows2 := NeighboursTurned(rows, order, p, c.column, Addr(g, to));
    DListMove(g, rows, c, order, src, to, p);
    MoveReads(g, rows, rows2, c, c2, order, src, to);
    WithinMoved(order, src, to, live);
    DListMoveNulls(rows, c, c2, order, src, to, live, p, Addr(g, to));
  }

  lemma DListMoveNulls(rows: seq<Row>, c: Container, c2: Container, order: seq<nat>, src: nat, to: nat, live: set<nat>, p: nat, a: int)
    requires c.DList? && SameColumn(c, c2) && NullElsewhere(rows, c, order, live)
    requires p < |order| && order[p] == src && src in live && to !in order && src != to && to < |rows|
    requires p > 0 ==> order[p - 1] < |rows| && |rows[order[p - 1]]| >= c.column + 2
    requires p + 1 < |order| ==> order[p + 1] < |rows| && |rows[order[p + 1]]| >= c.column + 2
    ensures NullElsewhere(NeighboursTurned(rows, order, p, c.column, a), c2, Moved(order, src, to), live - {src} + {to})
    ensures OnlyLinks(rows, NeighboursTurned(rows, order, p, c.column, a), c)
  {
    var rows2 := NeighboursTurned(rows, order, p, c.column, a);
    assert src in order;
    NullsMoved(rows, rows2, c, order, src, to, live);
    NullsSameColumn(rows2, c, c2, Moved(order, src, to), live - {src} + {to});
  }

  /** Whether the moved element is in the list or not. */
  lemma DListDone(g: Space, rows: seq<Row>, rows2: seq<Row>, c: Container, c2: Container, order: seq<nat>, src: nat, to: nat, live: set<nat>, p: int)
    requires Positive(g) && c.DList? && Pending(g, rows, c, order, src, to, live)
    requires c2 == c.(head := Turned(c.head, Addr(g, src), Addr(g, to)), tail := Turned(c.tail, Addr(g, src), Addr(g, to)))
    requires if p == -1 then src !in order && rows2 == rows else
      && 0 <= p < |order| && order[p] == src
      && Neighbour(g, rows, c, order, p - 1) && Neighbour(g, rows, c, order, p + 1)
      && rows2 == NeighboursTurned(rows, order, p, c.column, Addr(g, to))
    ensures Settled(g, rows2, c2, Moved(order, src, to), live - {src} + {to})
    ensures OnlyLinks(rows, rows2, c)
  {
    if p == -1 {
      AbsentMoveDone(g, rows, c, order, src, to, live);
    } else {
      DListMoveDone(g, rows, c, c2, order, src, to, live, p);
    }
  }

  lemma LListDone(g: Space, rows: seq<Row>, rows2: seq<Row>, c: Container, c2: Container, order: seq<nat>, src: nat, to: nat, live: set<nat>, p: int)
    requires Positive(g) && c.LList? && Pending(g, rows, c, order, src, to, live)
    requires c2 == c.(head := Turned(c.head, Addr(g, src), Addr(g, to)), tail := Turned(c.tail, Addr(g, src), Addr(g, to)))
    requires if p == -1 then src !in order && rows2 == rows else
      && 0 <= p < |order| && order[p] == src && Neighbour(g, rows, c, order, p - 1)
      && rows2 == if p > 0 then Put(rows, order[p - 1], c.column, Addr(g, to)) else rows
    ensures Settled(g, rows2, c2, Moved(order, src, to), live - {src} + {to})
    ensures OnlyLinks(rows, rows2, c)
  {
    if p == -1 {
      AbsentMoveDone(g, rows, c, order, src, to, live);
    } else {
      LListMoveDone(g, rows, rows2, c, c2, order, src, to, live, p);
    }
  }

  /** Where a walk along the list stands after q steps; only the head has been
      turned so far. */
  ghost function Walk(g: Space, order: seq<nat>, src: nat, to: nat, q: nat): int {
    if q == 0 then Turned(PtrAt(g, order, 0), Addr(g, src), Addr(g, to)) else PtrAt(g, order, q)
  }

  lemma WalkStart(g: Space, rows: seq<Row>, c: Container, order: seq<nat>, src: nat, to: nat, live: set<nat>)
    requires Positive(g) && c.LList? && Pending(g, rows, c, order, src, to, live)
    ensures Turned(c.head, Addr(g, src), Addr(g, to)) == Walk(g, order, src, to, 0)
    ensures Walk(g, order, src, to, 0) == 0 <==> |order| == 0
  {
    hide Addr;
    AddrFacts(g, src, src);
    AddrFacts(g, to, to);
    if |order| > 0 {
      AddrFacts(g, order[0], src);
    }
  }

  lemma WalkStep(g: Space, rows: seq<Row>, c: Container, order: seq<nat>, src: nat, to: nat, live: set<nat>, p: int, q: nat)
    requires Positive(g) && c.LList? && Pending(g, rows, c, order, src, to, live)
    requires -1 <= p < |order| && (if p == -1 then src !in order else order[p] == src) && q < |order|
    ensures var a := Walk(g, order, src, to, q);
            && a != 0 && 0 <= Slot(g, a) < |rows| && |rows[Slot(g, a)]| >= c.column + 1
            && Slot(g, a) == (if q == 0 && p == 0 then to else order[q])
            && rows[Slot(g, a)][c.column] == Walk(g, order, src, to, q + 1)
            && (a == Addr(g, src) <==> q == p && q > 0)
    ensures Walk(g, order, src, to, q + 1) == 0 <==> q + 1 == |order|
  {
    hide Addr, Slot, NoDup;
    NeighbourHolds(g, rows, c, order, q);
    NeighbourHolds(g, rows, c, order, q + 1);
    assert Linked(g, rows[order[q]], c, order, q);
    AddrFacts(g, to, src);
    SlotOfAddr(g, to);
    if p >= 0 {
      NeighbourIs(g, order, p, q);
    } else {
      NotPointedTo(g, order, src, q);
    }
  }

  lemma NullsSameColumn(rows: seq<Row>, c: Container, c2: Container, order: seq<nat>, live: set<nat>)
    requires SameColumn(c, c2) && NullElsewhere(rows, c, order, live)
    ensures NullElsewhere(rows, c2, order, live)
  {
    if c.DList? {
      forall x | x in live && x !in order
        ensures x < |rows| && NullLinks(rows[x], c2)
      {
        assert NullLinks(rows[x], c);
      }
    }
  }

  lemma WithinMoved(order: seq<nat>, src: nat, to: nat, live: set<nat>)
    requires Within(order, live)
    ensures Within(Moved(order, src, to), live - {src} + {to})
  {
  }

  lemma LListMoveDone(g: Space, rows: seq<Row>, rows2: seq<Row>, c: Container, c2: Container, order: seq<nat>, src: nat, to: nat, live: set<nat>, p: nat)
    requires Positive(g) && c.LList? && Pending(g, rows, c, order, src, to, live) && p < |order| && order[p] == src
    requires p > 0 ==> order[p - 1] < |rows| && |rows[order[p - 1]]| >= c.column + 1
    requires rows2 == if p > 0 then Put(rows, order[p - 1], c.column, Addr(g, to)) else rows
    requires c2 == c.(head := Turned(c.head, Addr(g, src), Addr(g, to)), tail := Turned(c.tail, Addr(g, src), Addr(g, to)))
    ensures Settled(g, rows2, c2, Moved(order, src, to), live - {src} + {to})
    ensures OnlyLinks(rows, rows2, c)
  {
    hide Addr, PtrAt, NoDup, Linked, Reads, LinksTurned;
    LListMove(g, rows, c, order, src, to, p, rows2);
    MoveReads(g, rows, rows2, c, c2, order, src, to);
    WithinMoved(order, src, to, live);
  }

  /** An element that is in no place of the container. */
  lemma AbsentMoveDone(g: Space, rows: seq<Row>, c: Container, order: seq<nat>, src: nat, to: nat, live: set<nat>)
    requires Positive(g) && Pending(g, rows, c, order, src, to, live) && src !in order
    ensures Settled(g, rows, c, Moved(order, src, to), live - {src} + {to})
    ensures c.head != Addr(g, src) && c.tail != Addr(g, src)
    ensures c.DList? ==> rows[to][c.column] == 0 && rows[to][c.column + 1] == 0
  {
    hide Addr, PtrAt, NoDup, Linked, Reads;
    AbsentMove(g, rows, c, order, src, to);
    WithinMoved(order, src, to, live);
    if c.DList? {
      assert NullLinks(rows[src], c);
      NullsMoved(rows, rows, c, order, src, to, live);
    }
  }

  /** What the pass over all elements does to one of them. */
  ghost predicate BulkStep(c: Container, rows: seq<Row>, rows2: seq<Row>, to: nat, d: int) {
    && to < |rows| && |rows2| == |rows| && (forall x :: 0 <= x < |rows| && x != to ==> rows2[x] == rows[x])
    && LinksShifted(rows[to], rows2[to], c, d)
  }

  function TurnedEnds(c: Container, before: int, after: int): Container {
    c.(head := Turned(c.head, before, after), tail := Turned(c.tail, before, after))
  }

  lemma LaidOutKept(cs: seq<Container>, size: nat, j: nat, c2: Container)
    requires LaidOut(cs, size) && j < |cs| && SameColumn(cs[j], c2)
    ensures LaidOut(cs[j := c2], size)
  {
  }

  /** What repairing container j leaves of the other containers. */
  lemma OthersKept(g: Space, rows: seq<Row>, rows2: seq<Row>, cs: seq<Container>, cs2: seq<Container>, size: nat, j: nat, i: nat, order: seq<nat>, src: nat, to: nat, live: set<nat>)
    requires LaidOut(cs, size) && j < |cs| && i < |cs| && i != j && OnlyLinks(rows, rows2, cs[j])
    requires |cs2| == |cs| && cs2 == cs[j := cs2[j]]
    ensures Pending(g, rows, cs[i], order, src, to, live) ==> Pending(g, rows2, cs2[i], order, src, to, live)
    ensures Settled(g, rows, cs[i], order, live) ==> Settled(g, rows2, cs2[i], order, live)
  {
    if Pending(g, rows, cs[i], order, src, to, live) {
      OtherPending(g, rows, rows2, cs[j], cs[i], order, src, to, live);
    }
    if Settled(g, rows, cs[i], order, live) {
      OtherSettled(g, rows, rows2, cs[j], cs[i], order, live);
    }
  }

  /** The links of a container lead through the slots of order, whatever its ends
      are; but the head of a singly linked list is right. */
  ghost predicate LinksLead(g: Space, rows: seq<Row>, c: Container, order: seq<nat>, live: set<nat>) {
    && Settled(g, rows, Rightful(g, c, order), order, live)
    && (c.LList? ==> c.head == PtrAt(g, order, 0))
  }

  /** The same of a container that waits for its links to be repaired. */
  ghost predicate LinksWait(g: Space, rows: seq<Row>, c: Container, order: seq<nat>, src: nat, to: nat, live: set<nat>) {
    && Pending(g, rows, Rightful(g, c, order), order, src, to, live)
    && (c.LList? ==> c.head == PtrAt(g, order, 0))
  }

  /** What repairing container j leaves of these. */
  lemma OthersThreaded(g: Space, rows: seq<Row>, rows2: seq<Row>, cs: seq<Container>, size: nat, j: nat, i: nat, order: seq<nat>, src: nat, to: nat, live: set<nat>)
    requires LaidOut(cs, size) && j < |cs| && i < |cs| && i != j && OnlyLinks(rows, rows2, cs[j])
    ensures LinksWait(g, rows, cs[i], order, src, to, live) ==> LinksWait(g, rows2, cs[i], order, src, to, live)
    ensures LinksLead(g, rows, cs[i], order, live) ==> LinksLead(g, rows2, cs[i], order, live)
  {
    hide Pending, Settled, OnlyLinks, PtrAt;
    LaidOutKept(cs, size, i, Rightful(g, cs[i], order));
    var ds := cs[i := Rightful(g, cs[i], order)];
    assert ds == ds[j := ds[j]];
    OthersKept(g, rows, rows2, ds, ds, size, j, i, order, src, to, live);
  }

  lemma SameLayoutItself(cs: seq<Container>)
    ensures SameLayout(cs, cs)
  {
  }

  lemma LayoutKept(cs: seq<Container>, cs2: seq<Container>, cs3: seq<Container>, j: nat)
    requires j < |cs| && SameLayout(cs, cs2) && |cs3| == |cs2| && cs3 == cs2[j := cs3[j]] && SameColumn(cs2[j], cs3[j])
    ensures SameLayout(cs, cs3)
  {
  }

  lemma SameDataItself(cs: seq<Container>)
    ensures forall row :: SameData(cs, row, row)
  {
  }

  lemma DataKept(cs: seq<Container>, cs2: seq<Container>, rows: seq<Row>, rows2: seq<Row>, rows3: seq<Row>, j: nat)
    requires SameLayout(cs, cs2) && j < |cs| && OnlyLinks(rows2, rows3, cs2[j]) && |rows| == |rows2|
    requires forall x :: 0 <= x < |rows| ==> SameData(cs, rows[x], rows2[x])
    ensures |rows3| == |rows| && forall x :: 0 <= x < |rows| ==> SameData(cs, rows[x], rows3[x])
  {
    forall x | 0 <= x < |rows|
      ensures SameData(cs, rows[x], rows3[x])
    {
      assert SameData(cs, rows[x], rows2[x]) && SameBut(rows2[x], rows3[x], cs2[j]);
      assert SameColumn(cs[j], cs2[j]);
    }
  }

  ghost function MovedAll(orders: seq<seq<nat>>, src: nat, to: nat): (r: seq<seq<nat>>)
    ensures |r| == |orders| && forall i :: 0 <= i < |orders| ==> r[i] == Moved(orders[i], src, to)
  {
    seq(|orders|, i requires 0 <= i < |orders| => Moved(orders[i], src, to))
  }

  /** A copied element waits for its links to be repaired. */
  lemma CopyPends(g: Space, rows: seq<Row>, rows2: seq<Row>, c: Container, order: seq<nat>, src: nat, to: nat, live: set<nat>)
    requires Settled(g, rows, c, order, live) && src in live && to !in live
    requires src < |rows| && to < |rows| && |rows[src]| == |rows[to]| >= c.column + Width(c)
    requires rows2 == rows[to := rows[src]]
    ensures Pending(g, rows2, c, order, src, to, live)
  {
    hide Addr, PtrAt, NoDup, Linked;
    forall p | 0 <= p < |order|
      ensures order[p] < |rows2| && Linked(g, rows2[order[p]], c, order, p)
    {
      assert order[p] in live && Linked(g, rows[order[p]], c, order, p);
    }
    if c.DList? {
      forall x | x in live && x !in order
        ensures x < |rows2| && NullLinks(rows2[x], c)
      {
        assert NullLinks(rows[x], c);
      }
    }
  }

  /** The link fields are the same. */
  ghost predicate SameLinks(row: Row, row2: Row, c: Container) {
    |row2| == |row| && forall k :: c.column <= k < c.column + Width(c) && k < |row| ==> row2[k] == row[k]
  }

  /** One container's pass over one element leaves the others' links alone. */
  lemma BulkOthers(row: Row, row2: Row, row3: Row, c: Container, c2: Container, d: Container, d2: Container, dist: int)
    requires Apart(c, d) && SameBut(row2, row3, c) && SameColumn(c, c2) && SameColumn(d, d2)
    ensures LinksShifted(row, row2, d, dist) ==> LinksShifted(row, row3, d2, dist)
    ensures SameLinks(row, row2, d) ==> SameLinks(row, row3, d2)
  {
  }

  /** The pass over all elements, up to element s, as container c sees it. */
  ghost predicate Passing(g: Space, rows: seq<Row>, rows2: seq<Row>, c: Container, c2: Container, d: int, s: nat, n: nat) {
    && s <= n && AllShifted(rows, rows2, c, d, s) && SameColumn(c, c2)
    && Chase(g, d, c2.head, s, n) == Chase(g, d, c.head, 0, n)
    && Chase(g, d, c2.tail, s, n) == Chase(g, d, c.tail, 0, n)
  }

  lemma PassStep(g: Space, rows: seq<Row>, rows2: seq<Row>, rows3: seq<Row>, c: Container, c2: Container, d: int, s: nat, n: nat)
    requires Passing(g, rows, rows2, c, c2, d, s, n) && s < n <= |rows| && |rows3| == |rows2|
    requires rows2[s] == rows[s] && LinksShifted(rows2[s], rows3[s], c2, d)
    requires forall x :: 0 <= x < |rows2| && x != s ==> rows3[x] == rows2[x]
    ensures Passing(g, rows, rows3, c, TurnedEnds(c2, Addr(g, s), Addr(g, s) + d), d, s + 1, n)
  {
    hide Addr;
    ChaseStep(g, d, c2.head, s, n);
    ChaseStep(g, d, c2.tail, s, n);
  }

  /** The head and tail are those the pass should leave. */
  ghost predicate EndsRight(g: Space, d: int, order: seq<nat>, n: nat) {
    order == [] || (!Overtaken(g, d, order[0], n) && !Overtaken(g, d, order[|order| - 1], n))
  }

  lemma PassDone(g: Space, rows: seq<Row>, rows2: seq<Row>, c: Container, c2: Container, order: seq<nat>, d: int, n: nat, live: set<nat>)
    requires Positive(g) && g.base + d > 0 && Settled(g, rows, c, order, live) && Passing(g, rows, rows2, c, c2, d, n, n)
    requires forall x: nat :: x in live <==> x < n
    ensures Reads(Space(g.base + d, g.step), rows2, c2, order) <==> EndsRight(g, d, order, n)
    ensures EndsRight(g, d, order, n) ==> Settled(Space(g.base + d, g.step), rows2, c2, order, live)
  {
    hide Addr, Linked, NoDup, Overtaken;
    assert forall p :: 0 <= p < |order| ==> order[p] in live;
    BulkReads(g, rows, rows2, c, order, d, n);
    if c.DList? {
      forall x | x in live && x !in order
        ensures x < |rows2| && NullLinks(rows2[x], c2)
      {
        assert NullLinks(rows[x], c) && LinksShifted(rows[x], rows2[x], c, d);
      }
    }
  }

  /** The head and tail lead to slots h and t, or the list is empty. */
  ghost predicate EndsLead(g: Space, c: Container, order: seq<nat>, h: nat, t: nat) {
    if order == [] then c.head == 0 == c.tail else c.head == Addr(g, h) && c.tail == Addr(g, t)
  }

  /** The slots the head and tail lead to after the buffer has moved by d. */
  ghost function FirstLands(g: Space, d: int, order: seq<nat>, n: nat): nat
    requires Positive(g)
  {
    if order == [] || order[0] >= n then 0 else LandsAt(g, d, order[0], n)
  }

  ghost function LastLands(g: Space, d: int, order: seq<nat>, n: nat): nat
    requires Positive(g)
  {
    if order == [] || order[|order| - 1] >= n then 0 else LandsAt(g, d, order[|order| - 1], n)
  }

  /** After the pass the links are right whatever became of the ends, and the ends
      lead where the pass takes them. */
  lemma PassLands(g: Space, rows: seq<Row>, rows2: seq<Row>, c: Container, c2: Container, order: seq<nat>, d: int, n: nat, live: set<nat>)
    requires Positive(g) && g.base + d > 0 && Settled(g, rows, c, order, live) && Passing(g, rows, rows2, c, c2, d, n, n)
    requires forall x: nat :: x in live <==> x < n
    ensures var g2 := Space(g.base + d, g.step);
            && Settled(g2, rows2, Rightful(g2, c2, order), order, live)
            && EndsLead(g2, c2, order, FirstLands(g, d, order, n), LastLands(g, d, order, n))
  {
    hide Addr, Linked, NoDup, Overtaken, PtrAt, LandsAt;
    assert forall p :: 0 <= p < |order| ==> order[p] in live;
    var g2 := Space(g.base + d, g.step);
    ShiftedLinks(g, rows, rows2, c, Rightful(g2, c2, order), order, d, n);
    if c.DList? {
      forall x | x in live && x !in order
        ensures x < |rows2| && NullLinks(rows2[x], Rightful(g2, c2, order))
      {
        assert NullLinks(rows[x], c) && LinksShifted(rows[x], rows2[x], c, d);
      }
    }
    EndsAfterPass(g, c, c2, order, d, n);
  }

  lemma EndsAfterPass(g: Space, c: Container, c2: Container, order: seq<nat>, d: int, n: nat)
    requires Positive(g) && g.base + d > 0 && forall p :: 0 <= p < |order| ==> order[p] < n
    requires c.head == PtrAt(g, order, 0) && c.tail == PtrAt(g, order, |order| - 1)
    requires c2.head == Chase(g, d, c.head, 0, n) && c2.tail == Chase(g, d, c.tail, 0, n)
    ensures EndsLead(Space(g.base + d, g.step), c2, order, FirstLands(g, d, order, n), LastLands(g, d, order, n))
  {
    if order == [] {
      forall k: nat | k < n
        ensures Addr(g, k) != 0
      {
        AddrFacts(g, k, k);
      }
      ChaseMisses(g, d, 0, 0, n);
    } else {
      ChaseLands(g, d, order[0], 0, n);
      ChaseLands(g, d, order[|order| - 1], 0, n);
    }
  }

  /** A slot's number once a slot has been opened at i. */
  function RaisedSlot(x: nat, i: nat): nat {
    if x >= i then x + 1 else x
  }

  /** A pointer that led to one of n slots has followed it when those from i on moved
      up. */
  ghost predicate PtrRaised(g: Space, before: int, after: int, i: nat, n: nat) {
    && (before == 0 ==> after == 0)
    && forall x: nat {:trigger Addr(g, x)} :: x < n && before == Addr(g, x) ==> after == Addr(g, RaisedSlot(x, i))
  }

  ghost predicate EndsRaised(g: Space, c: Container, c2: Container, i: nat, n: nat) {
    PtrRaised(g, c.head, c2.head, i, n) && PtrRaised(g, c.tail, c2.tail, i, n)
  }

  lemma PtrRaisedMore(g: Space, before: int, after: int, i: nat, n: nat)
    requires Positive(g) && 0 < i <= n && PtrRaised(g, before, after, i, n)
    ensures PtrRaised(g, before, Turned(after, Addr(g, i - 1), Addr(g, i)), i - 1, n)
  {
    hide Addr;
    AddrFacts(g, i - 1, i);
    forall x: nat | x < n && before == Addr(g, x)
      ensures Turned(after, Addr(g, i - 1), Addr(g, i)) == Addr(g, RaisedSlot(x, i - 1))
    {
      AddrFacts(g, RaisedSlot(x, i), i - 1);
    }
  }

  lemma EndsRaisedMore(g: Space, c: Container, c2: Container, c3: Container, i: nat, n: nat)
    requires Positive(g) && 0 < i <= n && EndsRaised(g, c, c2, i, n)
    requires c3 == TurnedEnds(c2, Addr(g, i - 1), Addr(g, i))
    ensures EndsRaised(g, c, c3, i - 1, n)
  {
    hide Addr, PtrRaised;
    PtrRaisedMore(g, c.head, c2.head, i, n);
    PtrRaisedMore(g, c.tail, c2.tail, i, n);
  }

  /** Where the ends lead once slot i has been opened, and that they are right if and
      only if they were. */
  lemma LeadRaised(g: Space, c: Container, c2: Container, order: seq<nat>, order2: seq<nat>, h: nat, t: nat, i: nat, n: nat)
    requires Positive(g) && EndsRaised(g, c, c2, i, n) && SameColumn(c, c2) && order2 == RaisedOrder(order, i)
    requires EndsLead(g, c, order, h, t) && (order != [] ==> h < n && t < n)
    ensures EndsLead(g, c2, order2, RaisedSlot(h, i), RaisedSlot(t, i))
    ensures c2 == Rightful(g, c2, order2) <==> c == Rightful(g, c, order)
  {
    hide Addr;
    if order != [] {
      RaisedApart(g, h, order[0], i);
      RaisedApart(g, t, order[|order| - 1], i);
    }
  }

  lemma RaisedApart(g: Space, x: nat, y: nat, i: nat)
    requires Positive(g)
    ensures Addr(g, RaisedSlot(x, i)) == Addr(g, RaisedSlot(y, i)) <==> Addr(g, x) == Addr(g, y)
  {
    AddrFacts(g, x, y);
    AddrFacts(g, RaisedSlot(x, i), RaisedSlot(y, i));
  }

  lemma NothingRaised(g: Space, cs: seq<Container>, n: nat)
    requires Positive(g)
    ensures forall j :: 0 <= j < |cs| ==> EndsRaised(g, cs[j], cs[j], n, n)
  {
  }

  lemma SameLinksItself(row: Row)
    ensures forall c: Container :: SameLinks(row, row, c)
  {
  }

  lemma LinksSeen(row: Row, row2: Row, row3: Row, c: Container, d: int)
    requires SameLinks(row, row2, c) && LinksShifted(row2, row3, c, d)
    ensures LinksShifted(row, row3, c, d)
  {
  }

  lemma DataSeen(cs: seq<Container>, row: Row, row2: Row, row3: Row, j: nat)
    requires j < |cs| && SameData(cs, row, row2) && SameBut(row2, row3, cs[j])
    ensures SameData(cs, row, row3)
  {
  }

  lemma PassStart(g: Space, rows: seq<Row>, cs: seq<Container>, d: int, n: nat)
    ensures forall j :: 0 <= j < |cs| ==> Passing(g, rows, rows, cs[j], cs[j], d, 0, n)
    ensures SameLayout(cs, cs)
  {
  }

  lemma NewAddress(base: int, oldBase: int, size: nat, s: nat)
    ensures Addr(Space(base, size), s) == Addr(Space(oldBase, size), s) + (base - oldBase)
  {
  }

  lemma SameLayoutData(cs: seq<Container>, cs2: seq<Container>, row: Row, row2: Row)
    requires SameLayout(cs, cs2)
    ensures SameData(cs, row, row2) <==> SameData(cs2, row, row2)
  {
    forall k: nat
      ensures IsData(cs, k) <==> IsData(cs2, k)
    {
      forall j | 0 <= j < |cs|
        ensures cs2[j].column == cs[j].column && Width(cs2[j]) == Width(cs[j])
      {
        assert SameColumn(cs[j], cs2[j]);
      }
    }
  }

  lemma LayoutStep(cs: seq<Container>, cs2: seq<Container>, cs3: seq<Container>, before: int, after: int)
    requires SameLayout(cs, cs2) && |cs3| == |cs2|
    requires forall j :: 0 <= j < |cs2| ==> cs3[j] == TurnedEnds(cs2[j], before, after)
    ensures SameLayout(cs, cs3)
  {
    forall j | 0 <= j < |cs|
      ensures SameColumn(cs[j], cs3[j])
    {
      assert SameColumn(cs[j], cs2[j]);
    }
  }

  /** A buffer that has grown holds the same elements. */
  lemma GrownSettled(g: Space, rows: seq<Row>, rows2: seq<Row>, c: Container, order: seq<nat>, live: set<nat>, n: nat)
    requires Settled(g, rows, c, order, live) && n <= |rows| && n <= |rows2|
    requires forall x :: 0 <= x < n ==> rows2[x] == rows[x]
    requires forall x :: x in live ==> x < n
    ensures Settled(g, rows2, c, order, live)
  {
    forall p | 0 <= p < |order|
      ensures order[p] < |rows2| && Linked(g, rows2[order[p]], c, order, p)
    {
      assert order[p] in live && Linked(g, rows[order[p]], c, order, p);
    }
    if c.DList? {
      forall x | x in live && x !in order
        ensures x < |rows2| && NullLinks(rows2[x], c)
      {
        assert NullLinks(rows[x], c);
      }
    }
  }

  /** Fewer slots are live, none of them in the container. */
  lemma ShrunkSettled(g: Space, rows: seq<Row>, c: Container, order: seq<nat>, live: set<nat>, live2: set<nat>)
    requires Settled(g, rows, c, order, live) && live2 <= live && Within(order, live2)
    ensures Settled(g, rows, c, order, live2)
  {
  }

  /** Slots from n on, numbered one higher, once all from c on have moved up. */
  ghost function Raised(orders: seq<seq<nat>>, c: nat): (r: seq<seq<nat>>)
    ensures |r| == |orders| && forall j :: 0 <= j < |orders| ==> r[j] == RaisedOrder(orders[j], c)
  {
    seq(|orders|, j requires 0 <= j < |orders| => RaisedOrder(orders[j], c))
  }

  ghost function RaisedOrder(order: seq<nat>, c: nat): (r: seq<nat>)
    ensures |r| == |order|
    ensures forall p :: 0 <= p < |order| ==> r[p] == if order[p] >= c then order[p] + 1 else order[p]
  {
    seq(|order|, p requires 0 <= p < |order| => if order[p] >= c then order[p] + 1 else order[p])
  }

  lemma RaiseOne(orders: seq<seq<nat>>, c: nat)
    requires c > 0
    ensures MovedAll(Raised(orders, c), c - 1, c) == Raised(orders, c - 1)
  {
    forall j | 0 <= j < |orders|
      ensures Moved(RaisedOrder(orders[j], c), c - 1, c) == RaisedOrder(orders[j], c - 1)
    {
    }
  }

  lemma RaiseNone(orders: seq<seq<nat>>, n: nat)
    requires forall j, p :: 0 <= j < |orders| && 0 <= p < |orders[j]| ==> orders[j][p] < n
    ensures Raised(orders, n) == orders
  {
    forall j | 0 <= j < |orders|
      ensures RaisedOrder(orders[j], n) == orders[j]
    {
    }
  }

  /** Slots from e on and below m, numbered k lower. */
  ghost function Lowered(orders: seq<seq<nat>>, e: nat, k: nat, m: nat): (r: seq<seq<nat>>)
    requires k <= e
    ensures |r| == |orders| && forall j :: 0 <= j < |orders| ==> r[j] == LoweredOrder(orders[j], e, k, m)
  {
    seq(|orders|, j requires 0 <= j < |orders| => LoweredOrder(orders[j], e, k, m))
  }

  ghost function LoweredOrder(order: seq<nat>, e: nat, k: nat, m: nat): (r: seq<nat>)
    requires k <= e
    ensures |r| == |order|
    ensures forall p :: 0 <= p < |order| ==> r[p] == if e <= order[p] < m then order[p] - k else order[p]
  {
    seq(|order|, p requires 0 <= p < |order| => if e <= order[p] < m then order[p] - k else order[p])
  }

  lemma LowerOne(orders: seq<seq<nat>>, e: nat, k: nat, m: nat)
    requires 0 < k <= e <= m
    requires forall j, p :: 0 <= j < |orders| && 0 <= p < |orders[j]| ==> !(e - k <= orders[j][p] < e)
    ensures MovedAll(Lowered(orders, e, k, m), m, m - k) == Lowered(orders, e, k, m + 1)
  {
    forall j | 0 <= j < |orders|
      ensures Moved(LoweredOrder(orders[j], e, k, m), m, m - k) == LoweredOrder(orders[j], e, k, m + 1)
    {
    }
  }

  lemma LowerNone(orders: seq<seq<nat>>, e: nat, k: nat)
    requires k <= e
    ensures Lowered(orders, e, k, e) == orders
  {
    forall j | 0 <= j < |orders|
      ensures LoweredOrder(orders[j], e, k, e) == orders[j]
    {
    }
  }

  lemma Distance(g: Space, s: nat, k: nat)
    requires k <= s
    ensures Addr(g, s) == Addr(g, s - k) + k * g.step
  {
    Product(s, s - k, g.step);
  }

  lemma SettledInsert(g: Space, rows: seq<Row>, rows2: seq<Row>, c: Container, order: seq<nat>, p: nat, at: nat, live: set<nat>)
    requires c.DList? && Settled(g, rows, c, order, live) && p <= |order| && at !in order && at < |rows| && |rows2| == |rows|
    requires forall x :: 0 <= x < |rows| ==>
      |rows[x]| >= c.column + 2 && rows2[x] == InsertedRow(g, rows, c.column, order, p, at, x)
    ensures Settled(g, rows2, InsertedEnds(g, c, order, p, at), InsertedAt(order, p, at), live + {at})
    ensures OnlyLinks(rows, rows2, c)
  {
    InsertReads(g, rows, rows2, c, order, p, at);
    InsertNulls(g, rows, rows2, c, order, p, at, live);
    InsertWithin(order, p, at, live);
    NullsSameColumn(rows2, c, InsertedEnds(g, c, order, p, at), InsertedAt(order, p, at), live + {at});
  }

  lemma InsertWithin(order: seq<nat>, p: nat, at: nat, live: set<nat>)
    requires p <= |order| && Within(order, live)
    ensures Within(InsertedAt(order, p, at), live + {at})
  {
  }

  lemma InsertNulls(g: Space, rows: seq<Row>, rows2: seq<Row>, c: Container, order: seq<nat>, p: nat, at: nat, live: set<nat>)
    requires c.DList? && NullElsewhere(rows, c, order, live) && p <= |order| && |rows2| == |rows|
    requires forall x :: 0 <= x < |rows| ==>
      |rows[x]| >= c.column + 2 && rows2[x] == InsertedRow(g, rows, c.column, order, p, at, x)
    ensures NullElsewhere(rows2, c, InsertedAt(order, p, at), live + {at})
  {
    hide InsertedAt, InsertedRow;
    InsertedLength(order, p, at);
    forall x | x in live + {at} && x !in InsertedAt(order, p, at)
      ensures x < |rows2| && NullLinks(rows2[x], c)
    {
      assert NullLinks(rows[x], c);
      OtherRow(g, rows, c.column, order, p, at, x);
    }
  }

  lemma RemoveNulls(g: Space, rows: seq<Row>, rows2: seq<Row>, c: Container, order: seq<nat>, p: nat, live: set<nat>)
    requires c.DList? && NullElsewhere(rows, c, order, live) && p < |order| && |rows2| == |rows| && NoDup(order) && order[p] < |rows|
    requires forall x :: 0 <= x < |rows| ==>
      |rows[x]| >= c.column + 2 && rows2[x] == RemovedRow(g, rows, c.column, order, p, x)
    ensures NullElsewhere(rows2, c, RemovedAt(order, p), live)
  {
    RemovedIsNull(g, rows, c, order, p);
    RemovedElements(order, p);
    hide RemovedAt, RemovedRow;
    forall x | x in live && x !in RemovedAt(order, p)
      ensures x < |rows2| && NullLinks(rows2[x], c)
    {
      if x != order[p] {
        assert NullLinks(rows[x], c);
        OtherRow(g, rows, c.column, order, p, 0, x);
      }
    }
  }

  lemma RemoveWithin(order: seq<nat>, p: nat, live: set<nat>)
    requires p < |order| && Within(order, live)
    ensures Within(RemovedAt(order, p), live)
  {
  }

  lemma OtherRow(g: Space, rows: seq<Row>, k: nat, order: seq<nat>, p: nat, at: nat, x: nat)
    requires p <= |order| && x < |rows| && |rows[x]| >= k + 2 && x !in order
    ensures x != at ==> InsertedRow(g, rows, k, order, p, at, x) == rows[x]
    ensures p < |order| ==> RemovedRow(g, rows, k, order, p, x) == rows[x]
  {
    assert p > 0 ==> order[p - 1] in order;
    assert p < |order| ==> order[p] in order;
  }

  lemma SettledRemove(g: Space, rows: seq<Row>, rows2: seq<Row>, c: Container, order: seq<nat>, p: nat, live: set<nat>)
    requires c.DList? && Settled(g, rows, c, order, live) && p < |order| && |rows2| == |rows|
    requires forall x :: 0 <= x < |rows| ==>
      |rows[x]| >= c.column + 2 && rows2[x] == RemovedRow(g, rows, c.column, order, p, x)
    ensures Settled(g, rows2, RemovedEnds(g, c, order, p), RemovedAt(order, p), live)
    ensures OnlyLinks(rows, rows2, c)
  {
    RemoveReads(g, rows, rows2, c, order, p);
    assert order[p] < |rows|;
    RemoveNulls(g, rows, rows2, c, order, p, live);
    RemoveWithin(order, p, live);
    NullsSameColumn(rows2, c, RemovedEnds(g, c, order, p), RemovedAt(order, p), live);
  }

  lemma RemovedIsNull(g: Space, rows: seq<Row>, c: Container, order: seq<nat>, p: nat)
    requires c.DList? && p < |order| && order[p] < |rows| && |rows[order[p]]| >= c.column + 2
    ensures NullLinks(RemovedRow(g, rows, c.column, order, p, order[p]), c)
  {
  }

  /** How far an element moves, one slot up or k slots down. */
  lemma UpSlot(g: Space, s: nat)
    requires g.base > 0 && g.step > 0 && s > 0
    ensures TransformPtr(Addr(g, s), g.step, -1) == Addr(g, s - 1)
  {
    AddrFacts(g, s - 1, s);
  }

  lemma DownSlot(g: Space, s: nat, k: nat)
    requires g.base > 0 && g.step > 0 && k <= s
    ensures TransformPtr(Addr(g, s - k), k * g.step, 1) == Addr(g, s)
  {
    Distance(g, s, k);
  }

  /** The free slot moves down by one. */
  lemma GapStep(n: nat, curr: nat)
    requires 0 < curr <= n
    ensures var live := Below(n + 1) - {curr};
            && curr - 1 in live && curr !in live && live - {curr - 1} + {curr} == Below(n + 1) - {curr - 1}
  {
  }

  /** The live slots once the elements up to m have moved down. */
  ghost function Kept(k: nat, n: nat, m: nat): set<nat>
    requires k <= m
  {
    Below(m - k) + (Below(n) - Below(m))
  }

  lemma KeptStep(k: nat, n: nat, m: nat)
    requires 0 < k <= m < n
    ensures m in Kept(k, n, m) && m - k !in Kept(k, n, m)
    ensures Kept(k, n, m) - {m} + {m - k} == Kept(k, n, m + 1)
  {
  }

  lemma ClosedLive(k: nat, n: nat)
    requires k <= n
    ensures Kept(k, n, n) == Below(n - k)
  {
  }

  /** Opening a slot and deleting it again gives every container its slots back. */
  lemma OpenThenDelete(orders: seq<seq<nat>>, i: nat, n: nat)
    requires forall j, p :: 0 <= j < |orders| && 0 <= p < |orders[j]| ==> orders[j][p] < n
    ensures Lowered(Raised(orders, i), i + 1, 1, n + 1) == orders
    ensures forall j, p :: 0 <= j < |orders| && 0 <= p < |orders[j]| ==> Raised(orders, i)[j][p] != i
  {
    forall j | 0 <= j < |orders|
      ensures LoweredOrder(RaisedOrder(orders[j], i), i + 1, 1, n + 1) == orders[j]
    {
    }
  }
}
