/** Lists whose links are kept inside the elements of an array, as addresses:
    what must be repaired when an element moves, and when all of them do. */
module Relinking {
  import opened Sequences
  /** An element of the array: its words, links in front and data behind. */
  type Row = seq<int>

  /** Where the array lies: the address of slot 0 and the distance of slots. */
  datatype Space = Space(base: int, step: int)

  /** A container threaded through the elements; column is the place of its
      link fields: prev and next of a doubly linked list, next of a singly
      linked one. Its head and tail are addresses, 0 when it is empty. */
  datatype Container =
    | DList(column: nat, head: int, tail: int)
    | LList(column: nat, head: int, tail: int)

  function Width(c: Container): nat {
    if c.DList? then 2 else 1
  }

  ghost predicate Positive(g: Space) {
    g.base > 0 && g.step > 0
  }

  function Addr(g: Space, s: nat): int {
    g.base + s * g.step
  }

  lemma AddrFacts(g: Space, s: nat, t: nat)
    requires Positive(g)
    ensures Addr(g, s) > 0
    ensures Addr(g, s) == Addr(g, t) <==> s == t
    ensures Addr(g, s + 1) == Addr(g, s) + g.step
  {
    Product(s, t, g.step);
    Product(t, s, g.step);
    Product(s, 0, g.step);
    Product(s + 1, s, g.step);
  }

  /** The slot an address belongs to. */
  function Slot(g: Space, a: int): int
    requires g.step > 0
  {
    (a - g.base) / g.step
  }

  lemma SlotOfAddr(g: Space, s: nat)
    requires Positive(g)
    ensures Slot(g, Addr(g, s)) == s
  {
    var d := s * g.step;
    assert d / g.step == s by {
      assert 0 <= d - s * g.step < g.step;
      QuotientIs(d, g.step, s);
    }
  }

  lemma Product(a: int, b: int, n: int)
    ensures (a - b) * n == a * n - b * n
    ensures n > 0 && a > b ==> (a - b) * n >= n
  {
    if n > 0 && a > b {
      AtLeast(a - b, n);
    }
  }

  lemma AtLeast(a: nat, n: nat)
    requires a > 0
    ensures a * n >= n
  {
    assert a * n == (a - 1) * n + n;
  }

  lemma QuotientIs(d: int, n: int, q: int)
    requires n > 0 && 0 <= d - q * n < n
    ensures d / n == q
  {
    Quotients(d, n, d / n, q);
  }

  lemma Quotients(d: int, n: int, r: int, q: int)
    requires n > 0 && 0 <= d - q * n < n && 0 <= d - r * n < n
    ensures r == q
  {
    Product(r, q, n);
    Product(q, r, n);
  }

  function PtrAt(g: Space, order: seq<nat>, p: int): int {
    if 0 <= p < |order| then Addr(g, order[p]) else 0
  }

  /** The link fields of the element at position p of the container. */
  ghost predicate Linked(g: Space, row: Row, c: Container, order: seq<nat>, p: int) {
    && |row| >= c.column + Width(c)
    && (if c.DList? then row[c.column] == PtrAt(g, order, p - 1) && row[c.column + 1] == PtrAt(g, order, p + 1)
        else row[c.column] == PtrAt(g, order, p + 1))
  }

  /** The container, read from the array, is this sequence of slots. */
  ghost predicate Reads(g: Space, rows: seq<Row>, c: Container, order: seq<nat>) {
    && c.head == PtrAt(g, order, 0) && c.tail == PtrAt(g, order, |order| - 1)
    && NoDup(order)
    && forall p :: 0 <= p < |order| ==> order[p] < |rows| && Linked(g, rows[order[p]], c, order, p)
  }

  /** Live elements that are not in a doubly linked list have null links. */
  ghost predicate NullElsewhere(rows: seq<Row>, c: Container, order: seq<nat>, live: set<nat>) {
    c.DList? ==>
      forall x :: x in live && x !in order ==> x < |rows| && NullLinks(rows[x], c)
  }

  ghost predicate NullLinks(row: Row, c: Container) {
    |row| >= c.column + 2 && row[c.column] == 0 && row[c.column + 1] == 0
  }

  // ----- what other containers see -----

  /** No word but those of the container's link fields differs. */
  ghost predicate OnlyLinks(rows: seq<Row>, rows2: seq<Row>, c: Container) {
    |rows2| == |rows| && forall s :: 0 <= s < |rows| ==> SameBut(rows[s], rows2[s], c)
  }

  ghost predicate SameBut(row: Row, row2: Row, c: Container) {
    |row2| == |row| && forall k :: 0 <= k < |row| && !(c.column <= k < c.column + Width(c)) ==> row2[k] == row[k]
  }

  ghost predicate Apart(c: Container, d: Container) {
    c.column + Width(c) <= d.column || d.column + Width(d) <= c.column
  }

  lemma OtherContainer(g: Space, rows: seq<Row>, rows2: seq<Row>, c: Container, d: Container, order: seq<nat>, live: set<nat>)
    requires OnlyLinks(rows, rows2, c) && Apart(c, d)
    ensures Reads(g, rows, d, order) ==> Reads(g, rows2, d, order)
    ensures NullElsewhere(rows, d, order, live) ==> NullElsewhere(rows2, d, order, live)
  {
    if Reads(g, rows, d, order) {
      forall p | 0 <= p < |order|
        ensures Linked(g, rows2[order[p]], d, order, p)
      {
        assert Linked(g, rows[order[p]], d, order, p) && SameBut(rows[order[p]], rows2[order[p]], c);
      }
    }
    if NullElsewhere(rows, d, order, live) && d.DList? {
      forall x | x in live && x !in order
        ensures NullLinks(rows2[x], d)
      {
        assert NullLinks(rows[x], d) && SameBut(rows[x], rows2[x], c);
      }
    }
  }

  // ----- one element moved -----

  /** The slots of a container after the element of one slot moved to another. */
  function Moved(order: seq<nat>, src: nat, to: nat): (r: seq<nat>)
    ensures |r| == |order|
    ensures forall p :: 0 <= p < |order| ==> r[p] == if order[p] == src then to else order[p]
  {
    seq(|order|, p requires 0 <= p < |order| => if order[p] == src then to else order[p])
  }

  /** The element of slot src has been copied to slot to, and nothing else is
      known to the container yet. */
  ghost predicate Copied(g: Space, rows: seq<Row>, c: Container, order: seq<nat>, src: nat, to: nat) {
    && Reads(g, rows, c, order)
    && src < |rows| && to < |rows| && src != to && to !in order
    && |rows[src]| == |rows[to]| >= c.column + Width(c)
    && forall k :: c.column <= k < c.column + Width(c) ==> rows[to][k] == rows[src][k]
  }

  lemma OtherCopied(g: Space, rows: seq<Row>, rows2: seq<Row>, c: Container, d: Container, order: seq<nat>, src: nat, to: nat)
    requires Copied(g, rows, d, order, src, to) && OnlyLinks(rows, rows2, c) && Apart(c, d)
    ensures Copied(g, rows2, d, order, src, to)
  {
    OtherContainer(g, rows, rows2, c, d, order, {});
    assert SameBut(rows[src], rows2[src], c) && SameBut(rows[to], rows2[to], c);
  }

  /** A link or end that pointed to the old place points to the new one. */
  function Turned(ptr: int, before: int, after: int): int {
    if ptr == before then after else ptr
  }

  lemma PtrMoved(g: Space, order: seq<nat>, src: nat, to: nat, p: int)
    requires Positive(g)
    ensures PtrAt(g, Moved(order, src, to), p) == Turned(PtrAt(g, order, p), Addr(g, src), Addr(g, to))
  {
    AddrFacts(g, src, src);
    if 0 <= p < |order| {
      AddrFacts(g, order[p], src);
    }
  }

  lemma MovedNoDup(order: seq<nat>, src: nat, to: nat)
    requires NoDup(order) && to !in order
    ensures NoDup(Moved(order, src, to))
  {
  }

  /** Every row that is in the container has its links turned, the moved row
      included. */
  ghost predicate LinksTurned(g: Space, rows2: seq<Row>, c: Container, order: seq<nat>, src: nat, to: nat) {
    forall p :: 0 <= p < |order| ==>
      var x := Moved(order, src, to)[p];
      x < |rows2| && Linked(g, rows2[x], c, Moved(order, src, to), p)
  }

  lemma MoveReads(g: Space, rows: seq<Row>, rows2: seq<Row>, c: Container, c2: Container, order: seq<nat>, src: nat, to: nat)
    requires Positive(g) && Copied(g, rows, c, order, src, to) && |rows2| == |rows|
    requires c2 == c.(head := Turned(c.head, Addr(g, src), Addr(g, to)), tail := Turned(c.tail, Addr(g, src), Addr(g, to)))
    requires LinksTurned(g, rows2, c, order, src, to)
    ensures Reads(g, rows2, c2, Moved(order, src, to))
  {
    hide Addr, PtrAt, NoDup, Linked;
    PtrMoved(g, order, src, to, 0);
    PtrMoved(g, order, src, to, |order| - 1);
    MovedNoDup(order, src, to);
    var order2 := Moved(order, src, to);
    forall p | 0 <= p < |order2|
      ensures order2[p] < |rows2| && Linked(g, rows2[order2[p]], c2, order2, p)
    {
      SameFields(g, rows2[order2[p]], c, c2, order2, p);
    }
  }

  lemma SameFields(g: Space, row: Row, c: Container, c2: Container, order: seq<nat>, p: int)
    requires c2 == c.(head := c2.head, tail := c2.tail)
    ensures Linked(g, row, c, order, p) == Linked(g, row, c2, order, p)
  {
  }

  /** The row at an element's new place has the links it had at the old one. */
  lemma CopiedLinks(g: Space, rows: seq<Row>, c: Container, order: seq<nat>, src: nat, to: nat, q: nat)
    requires Copied(g, rows, c, order, src, to) && q < |order|
    ensures var x := Moved(order, src, to)[q];
            x < |rows| && Linked(g, rows[x], c, order, q)
  {
    hide Addr, PtrAt, NoDup;
    assert Linked(g, rows[order[q]], c, order, q);
  }

  /** Two positions of a list are the same when the slots they moved to are. */
  lemma SamePosition(order: seq<nat>, src: nat, to: nat, at: nat, p: nat, q: nat)
    requires NoDup(order) && to !in order && p < |order| && q < |order|
    requires at < |order| && order[at] == src && at != p
    ensures Moved(order, src, to)[q] == order[p] <==> q == p
  {
    assert order[p] in order;
  }

  function Put(rows: seq<Row>, s: nat, k: nat, v: int): seq<Row>
    requires s < |rows| && k < |rows[s]|
  {
    rows[s := rows[s][k := v]]
  }

  /** The links of the neighbours of position p made to hold address a. */
  function NeighboursTurned(rows: seq<Row>, order: seq<nat>, p: nat, k: nat, a: int): (r: seq<Row>)
    requires p < |order|
    requires p > 0 ==> order[p - 1] < |rows| && |rows[order[p - 1]]| >= k + 2
    requires p + 1 < |order| ==> order[p + 1] < |rows| && |rows[order[p + 1]]| >= k + 2
    ensures |r| == |rows|
  {
    var rows1 := if p > 0 then Put(rows, order[p - 1], k + 1, a) else rows;
    if p + 1 < |order| then Put(rows1, order[p + 1], k, a) else rows1
  }

  /** A list without duplicates says which rows those are. */
  lemma NeighbourRows(rows: seq<Row>, order: seq<nat>, src: nat, to: nat, p: nat, k: nat, a: int, q: nat)
    requires p < |order| && order[p] == src && NoDup(order) && to !in order
    requires p > 0 ==> order[p - 1] < |rows| && |rows[order[p - 1]]| >= k + 2
    requires p + 1 < |order| ==> order[p + 1] < |rows| && |rows[order[p + 1]]| >= k + 2
    requires q < |order| && Moved(order, src, to)[q] < |rows| && |rows[Moved(order, src, to)[q]]| >= k + 2
    ensures var x := Moved(order, src, to)[q];
            NeighboursTurned(rows, order, p, k, a)[x] ==
              if q + 1 == p then rows[x][k + 1 := a] else if q == p + 1 then rows[x][k := a] else rows[x]
  {
    hide NoDup;
    if p > 0 {
      SamePosition(order, src, to, p, p - 1, q);
    }
    if p + 1 < |order| {
      SamePosition(order, src, to, p, p + 1, q);
    }
  }

  /** The neighbours' links that a move must turn. */
  lemma DListMove(g: Space, rows: seq<Row>, c: Container, order: seq<nat>, src: nat, to: nat, p: nat)
    requires Positive(g) && c.DList? && Copied(g, rows, c, order, src, to)
    requires p < |order| && order[p] == src
    requires p > 0 ==> order[p - 1] < |rows| && |rows[order[p - 1]]| >= c.column + 2
    requires p + 1 < |order| ==> order[p + 1] < |rows| && |rows[order[p + 1]]| >= c.column + 2
    ensures LinksTurned(g, NeighboursTurned(rows, order, p, c.column, Addr(g, to)), c, order, src, to)
  {
    hide Addr, PtrAt, NoDup, Copied, NeighboursTurned;
    CopiedOrder(g, rows, c, order, src, to);
    var order2 := Moved(order, src, to);
    var rows2 := NeighboursTurned(rows, order, p, c.column, Addr(g, to));
    forall q | 0 <= q < |order|
      ensures order2[q] < |rows2| && Linked(g, rows2[order2[q]], c, order2, q)
    {
      CopiedLinks(g, rows, c, order, src, to, q);
      NeighbourRows(rows, order, src, to, p, c.column, Addr(g, to), q);
      RowTurned(g, rows[order2[q]], rows2[order2[q]], c, order, src, to, p, q);
    }
  }

  lemma CopiedOrder(g: Space, rows: seq<Row>, c: Container, order: seq<nat>, src: nat, to: nat)
    requires Copied(g, rows, c, order, src, to)
    ensures NoDup(order) && to !in order
  {
  }

  /** One row of the list, with the links that led to the moved element turned. */
  lemma RowTurned(g: Space, row: Row, row2: Row, c: Container, order: seq<nat>, src: nat, to: nat, p: nat, q: nat)
    requires Positive(g) && c.DList? && NoDup(order) && p < |order| && order[p] == src && q < |order|
    requires Linked(g, row, c, order, q)
    requires row2 == if q + 1 == p then row[c.column + 1 := Addr(g, to)]
                     else if q == p + 1 then row[c.column := Addr(g, to)] else row
    ensures Linked(g, row2, c, Moved(order, src, to), q)
  {
    hide Addr, PtrAt, NoDup;
    PtrMoved(g, order, src, to, q - 1);
    PtrMoved(g, order, src, to, q + 1);
    NeighbourIs(g, order, p, q - 1);
    NeighbourIs(g, order, p, q + 1);
  }

  /** Only the element's own position holds its address. */
  lemma NeighbourIs(g: Space, order: seq<nat>, p: nat, q: int)
    requires Positive(g) && NoDup(order) && p < |order|
    ensures PtrAt(g, order, q) == Addr(g, order[p]) <==> q == p
  {
    AddrFacts(g, order[p], order[p]);
    if 0 <= q < |order| {
      AddrFacts(g, order[q], order[p]);
    }
  }

  /** Nothing needs turning when the moved element is in no place of the list. */
  lemma AbsentMove(g: Space, rows: seq<Row>, c: Container, order: seq<nat>, src: nat, to: nat)
    requires Positive(g) && Copied(g, rows, c, order, src, to) && src !in order
    ensures Moved(order, src, to) == order
    ensures c.head != Addr(g, src) && c.tail != Addr(g, src)
  {
    hide Linked, NoDup;
    NotPointedTo(g, order, src, 0);
    NotPointedTo(g, order, src, |order| - 1);
    assert forall p :: 0 <= p < |order| ==> order[p] in order;
  }

  lemma NotPointedTo(g: Space, order: seq<nat>, src: nat, p: int)
    requires Positive(g) && src !in order
    ensures PtrAt(g, order, p) != Addr(g, src)
  {
    AddrFacts(g, src, src);
    if 0 <= p < |order| {
      AddrFacts(g, order[p], src);
      assert order[p] in order;
    }
  }

  /** The one link of a singly linked list that a move must turn. */
  lemma LListMove(g: Space, rows: seq<Row>, c: Container, order: seq<nat>, src: nat, to: nat, p: nat, rows2: seq<Row>)
    requires Positive(g) && c.LList? && Copied(g, rows, c, order, src, to)
    requires p < |order| && order[p] == src && |rows2| == |rows|
    requires p > 0 ==> order[p - 1] < |rows| && |rows[order[p - 1]]| >= c.column + 1
    requires rows2 == if p > 0 then Put(rows, order[p - 1], c.column, Addr(g, to)) else rows
    ensures LinksTurned(g, rows2, c, order, src, to)
  {
    assert NoDup(order) && to !in order;
    hide Addr, PtrAt, NoDup, Reads;
    var order2 := Moved(order, src, to);
    forall q | 0 <= q < |order|
      ensures order2[q] < |rows2| && Linked(g, rows2[order2[q]], c, order2, q)
    {
      CopiedLinks(g, rows, c, order, src, to, q);
      PtrMoved(g, order, src, to, q + 1);
      NeighbourIs(g, order, p, q + 1);
      if p > 0 {
        SamePosition(order, src, to, p, p - 1, q);
      }
    }
  }

  /** After a move, the old place is no longer live and the new one is. */
  lemma NullsMoved(rows: seq<Row>, rows2: seq<Row>, c: Container, order: seq<nat>, src: nat, to: nat, live: set<nat>)
    requires NullElsewhere(rows, c, order, live) && |rows2| == |rows| && to < |rows|
    requires src in live && to !in order && src != to
    requires forall x :: x in live && x !in order && x != src && x != to && x < |rows| ==> rows2[x] == rows[x]
    requires src !in order && src < |rows| ==> rows2[to] == rows[src] || NullLinks(rows2[to], c)
    ensures NullElsewhere(rows2, c, Moved(order, src, to), live - {src} + {to})
  {
    if c.DList? {
      var order2 := Moved(order, src, to);
      forall x | x in live - {src} + {to} && x !in order2
        ensures x < |rows2| && NullLinks(rows2[x], c)
      {
        if x == to {
          forall p | 0 <= p < |order|
            ensures order[p] != src
          {
            assert order2[p] in order2;
          }
        } else {
          forall p | 0 <= p < |order|
            ensures order[p] != x
          {
            assert order2[p] in order2;
          }
        }
      }
    }
  }

  // ----- all elements moved together -----

  /** The link fields of an element with every address shifted. */
  function Shifted(ptr: int, d: int): int {
    if ptr == 0 then 0 else ptr + d
  }

  ghost predicate AllShifted(rows: seq<Row>, rows2: seq<Row>, c: Container, d: int, n: nat) {
    && |rows2| == |rows| && n <= |rows|
    && forall s :: 0 <= s < n ==> LinksShifted(rows[s], rows2[s], c, d)
  }

  ghost predicate LinksShifted(row: Row, row2: Row, c: Container, d: int) {
    && |row2| == |row| >= c.column + Width(c)
    && row2[c.column] == Shifted(row[c.column], d)
    && (c.DList? ==> row2[c.column + 1] == Shifted(row[c.column + 1], d))
  }

  /** What the pass over slots s, s + 1, .. n - 1 makes of a head or tail. */
  function Chase(g: Space, d: int, ptr: int, s: nat, n: nat): int
    requires s <= n
    decreases n - s
  {
    if s == n then ptr
    else Chase(g, d, if ptr == Addr(g, s) then Addr(g, s) + d else ptr, s + 1, n)
  }

  lemma ChaseStep(g: Space, d: int, ptr: int, s: nat, n: nat)
    requires s < n
    ensures Chase(g, d, ptr, s, n) == Chase(g, d, Turned(ptr, Addr(g, s), Addr(g, s) + d), s + 1, n)
  {
  }

  /** The new address of slot h is the old address of a later slot of the array,
      so that the pass takes it for one that has not been repaired yet. */
  ghost predicate Overtaken(g: Space, d: int, h: nat, n: nat) {
    exists k: nat {:trigger Addr(g, k)} :: h < k < n && Addr(g, k) == Addr(g, h) + d
  }

  lemma {:induction false} ChaseMisses(g: Space, d: int, ptr: int, s: nat, n: nat)
    requires s <= n && forall k: nat {:trigger Addr(g, k)} :: s <= k < n ==> Addr(g, k) != ptr
    ensures Chase(g, d, ptr, s, n) == ptr
    decreases n - s
  {
    if s < n {
      assert Addr(g, s) != ptr;
      ChaseMisses(g, d, ptr, s + 1, n);
    }
  }

  /** Turned pointers only move further on. */
  lemma {:induction false} ChaseGrows(g: Space, d: int, ptr: int, s: nat, n: nat)
    requires s <= n && d > 0
    ensures Chase(g, d, ptr, s, n) >= ptr
    decreases n - s
  {
    if s < n {
      ChaseGrows(g, d, Turned(ptr, Addr(g, s), Addr(g, s) + d), s + 1, n);
    }
  }

  /** From slot s on, a pointer to slot k later is turned once at least. */
  lemma {:induction false} ChaseTurns(g: Space, d: int, k: nat, s: nat, n: nat)
    requires Positive(g) && s <= k < n && d > 0
    ensures Chase(g, d, Addr(g, k), s, n) >= Addr(g, k) + d
    decreases n - s
  {
    AddrFacts(g, s, k);
    if s < k {
      ChaseTurns(g, d, k, s + 1, n);
    } else {
      ChaseGrows(g, d, Addr(g, k) + d, s + 1, n);
    }
  }

  /** Before its own slot is reached a head or tail is not touched. */
  lemma {:induction false} ChaseReaches(g: Space, d: int, h: nat, s: nat, n: nat)
    requires Positive(g) && s <= h < n
    ensures Chase(g, d, Addr(g, h), s, n) == Chase(g, d, Addr(g, h) + d, h + 1, n)
    decreases h - s
  {
    AddrFacts(g, s, h);
    if s < h {
      ChaseReaches(g, d, h, s + 1, n);
    }
  }

  /** The pass leaves the right head or tail exactly when it is not overtaken. */
  lemma ChaseIsRight(g: Space, d: int, h: nat, n: nat)
    requires Positive(g) && h < n
    ensures Chase(g, d, Addr(g, h), 0, n) == Addr(g, h) + d <==> !Overtaken(g, d, h, n)
  {
    ChaseReaches(g, d, h, 0, n);
    if Overtaken(g, d, h, n) {
      var k: nat :| h < k < n && Addr(g, k) == Addr(g, h) + d;
      LaterIsHigher(g, h, k);
      ChaseTurns(g, d, k, h + 1, n);
    } else {
      ChaseMisses(g, d, Addr(g, h) + d, h + 1, n);
    }
  }

  lemma LaterIsHigher(g: Space, h: nat, k: nat)
    requires Positive(g) && h < k
    ensures Addr(g, k) - Addr(g, h) >= g.step && Addr(g, k) - Addr(g, h) == (k - h) * g.step
  {
    Product(k, h, g.step);
  }

  /** When that happens: the buffer moved up by a whole number of slots, less
      than what lies above the slot. */
  lemma OvertakenIff(g: Space, d: int, h: nat, n: nat)
    requires Positive(g) && h < n
    ensures Overtaken(g, d, h, n) <==> d > 0 && d % g.step == 0 && h + d / g.step < n
  {
    hide Addr;
    if Overtaken(g, d, h, n) {
      var k: nat :| h < k < n && Addr(g, k) == Addr(g, h) + d;
      LaterIsHigher(g, h, k);
      QuotientIs(d, g.step, k - h);
    }
    if d > 0 && d % g.step == 0 && h + d / g.step < n {
      var q := WholeSlots(d, g.step);
      LaterIsHigher(g, h, h + q);
      assert Addr(g, h + q) == Addr(g, h) + d;
    }
  }

  lemma WholeSlots(d: int, step: nat) returns (q: nat)
    requires d > 0 && step > 0 && d % step == 0
    ensures q == d / step > 0 && d == q * step
  {
    q := d / step;
  }

  /** Where an end that led to slot h stands after the pass: when the buffer moved up
      by whole slots it is taken up that many slots again and again, as long as
      there are elements. */
  ghost function LandsAt(g: Space, d: int, h: nat, n: nat): (r: nat)
    requires Positive(g) && h < n
    ensures h <= r < n
    decreases n - h
  {
    if d > 0 && d % g.step == 0 && 0 < d / g.step && h + d / g.step < n then LandsAt(g, d, h + d / g.step, n) else h
  }

  lemma LandsElsewhere(g: Space, d: int, h: nat, n: nat)
    requires Positive(g) && h < n
    ensures LandsAt(g, d, h, n) != h <==> Overtaken(g, d, h, n)
  {
    OvertakenIff(g, d, h, n);
    if d > 0 && d % g.step == 0 {
      var q := WholeSlots(d, g.step);
    }
  }

  lemma {:induction false} ChaseLands(g: Space, d: int, h: nat, s: nat, n: nat)
    requires Positive(g) && s <= h < n
    ensures Chase(g, d, Addr(g, h), s, n) == Addr(g, LandsAt(g, d, h, n)) + d
    decreases n - s
  {
    hide Addr;
    if s < h {
      AddrFacts(g, h, s);
      ChaseLands(g, d, h, s + 1, n);
    } else {
      OvertakenIff(g, d, h, n);
      if Overtaken(g, d, h, n) {
        var q := WholeSlots(d, g.step);
        WholeSlotsUp(g, d, h, q);
        ChaseLands(g, d, h + q, h + 1, n);
      } else {
        LandsElsewhere(g, d, h, n);
        ChaseMisses(g, d, Addr(g, h) + d, h + 1, n);
      }
    }
  }

  lemma WholeSlotsUp(g: Space, d: int, h: nat, q: nat)
    requires d == q * g.step
    ensures Addr(g, h + q) == Addr(g, h) + d
  {
  }

  lemma ShiftedSpace(g: Space, d: int, order: seq<nat>, p: int)
    requires Positive(g) && g.base + d > 0
    ensures PtrAt(Space(g.base + d, g.step), order, p) == Shifted(PtrAt(g, order, p), d)
  {
    if 0 <= p < |order| {
      AddrFacts(g, order[p], order[p]);
    }
  }

  /** The links of the elements after the pass. */
  lemma ShiftedLinks(g: Space, rows: seq<Row>, rows2: seq<Row>, c: Container, c2: Container, order: seq<nat>, d: int, n: nat)
    requires Positive(g) && g.base + d > 0 && c2 == c.(head := c2.head, tail := c2.tail)
    requires Reads(g, rows, c, order) && AllShifted(rows, rows2, c, d, n)
    requires forall p :: 0 <= p < |order| ==> order[p] < n
    ensures forall p :: 0 <= p < |order| ==>
      order[p] < |rows2| && Linked(Space(g.base + d, g.step), rows2[order[p]], c2, order, p)
  {
    hide Addr, NoDup, PtrAt;
    forall p | 0 <= p < |order|
      ensures order[p] < |rows2| && Linked(Space(g.base + d, g.step), rows2[order[p]], c2, order, p)
    {
      assert Linked(g, rows[order[p]], c, order, p);
      assert LinksShifted(rows[order[p]], rows2[order[p]], c, d);
      ShiftedSpace(g, d, order, p - 1);
      ShiftedSpace(g, d, order, p + 1);
    }
  }

  /** A container after the pass: the same slots in the same order, unless its
      head or its tail was overtaken. */
  lemma BulkReads(g: Space, rows: seq<Row>, rows2: seq<Row>, c: Container, order: seq<nat>, d: int, n: nat)
    requires Positive(g) && g.base + d > 0
    requires Reads(g, rows, c, order) && AllShifted(rows, rows2, c, d, n)
    requires forall p :: 0 <= p < |order| ==> order[p] < n
    ensures var c2 := c.(head := Chase(g, d, c.head, 0, n), tail := Chase(g, d, c.tail, 0, n));
            Reads(Space(g.base + d, g.step), rows2, c2, order) <==>
            (order == [] || (!Overtaken(g, d, order[0], n) && !Overtaken(g, d, order[|order| - 1], n)))
  {
    hide Addr, Chase, Overtaken, Linked, AllShifted, NoDup;
    var g2 := Space(g.base + d, g.step);
    var c2 := c.(head := Chase(g, d, c.head, 0, n), tail := Chase(g, d, c.tail, 0, n));
    ShiftedLinks(g, rows, rows2, c, c2, order, d, n);
    ShiftedSpace(g, d, order, 0);
    ShiftedSpace(g, d, order, |order| - 1);
    if order == [] {
      forall k: nat | k < n
        ensures Addr(g, k) != 0
      {
        AddrFacts(g, k, k);
      }
      ChaseMisses(g, d, 0, 0, n);
    } else {
      AddrFacts(g, order[0], order[0]);
      AddrFacts(g, order[|order| - 1], order[|order| - 1]);
      ChaseIsRight(g, d, order[0], n);
      ChaseIsRight(g, d, order[|order| - 1], n);
    }
  }

  /** Moving down, or moving up past the end of the old elements, is safe. */
  lemma NoOverlapUpwards(g: Space, d: int, h: nat, n: nat)
    requires Positive(g) && h < n && (d <= 0 || d >= n * g.step)
    ensures !Overtaken(g, d, h, n)
  {
    if Overtaken(g, d, h, n) {
      var k: nat :| h < k < n && Addr(g, k) == Addr(g, h) + d;
      LaterIsHigher(g, h, k);
      Product(n, k - h, g.step);
    }
  }

  /** Two elements one word apart, buffer moved up by one slot: the head, turned
      for slot 0, is turned again for slot 1. */
  lemma OverlapBreaksHead()
    ensures var g, c, order := Space(10, 1), LList(0, 10, 11), [0, 1];
            && Reads(g, [[11], [0]], c, order)
            && AllShifted([[11], [0]], [[12], [0]], c, 1, 2)
            && !Reads(Space(11, 1), [[12], [0]], c.(head := Chase(g, 1, c.head, 0, 2), tail := Chase(g, 1, c.tail, 0, 2)), order)
  {
    var g, c, order: seq<nat> := Space(10, 1), LList(0, 10, 11), [0, 1];
    assert Addr(g, 0) == 10 && Addr(g, 1) == 11;
    assert Linked(g, [11], c, order, 0) && Linked(g, [0], c, order, 1);
    OvertakenIff(g, 1, 0, 2);
    BulkReads(g, [[11], [0]], [[12], [0]], c, order, 1, 2);
  }
}
