/** The growable array whose elements carry the links of other containers: every
    move of elements repairs the links. */
module Relocation {
  import opened Sequences
  import opened Relinking
  import opened DListLinks
  import opened RelocationSteps
  import opened PrefixLayout

  class AList {
    var base: int
    const objsize: nat
    var buffer: array<Row>
    var freeIndex: nat
    var containers: seq<Container>
    ghost var orders: seq<seq<nat>>

    ghost function G(): Space
      reads this
    {
      Space(base, objsize)
    }

    ghost predicate Shape()
      reads this, buffer
    {
      && Positive(G()) && freeIndex <= buffer.Length && LaidOut(containers, objsize)
      && |orders| == |containers|
      && forall s :: 0 <= s < buffer.Length ==> |buffer[s]| == objsize
    }

    /** Every container reads as its sequence of slots. */
    ghost predicate Reading(live: set<nat>)
      reads this, buffer
    {
      Shape() && forall j :: 0 <= j < |containers| ==> Settled(G(), buffer[..], containers[j], orders[j], live)
    }

    /** The head and tail of a container, when they led to the moved element. */
    method TurnEnds(j: nat, oldEl: int, el: int)
      requires j < |containers| && LaidOut(containers, objsize)
      modifies this`containers
      ensures containers == old(containers)[j := TurnedEnds(old(containers[j]), oldEl, el)]
      ensures LaidOut(containers, objsize)
    {
      LaidOutKept(containers, objsize, j, TurnedEnds(containers[j], oldEl, el));
      if oldEl == containers[j].head {
        containers := containers[j := containers[j].(head := el)];
      }
      if oldEl == containers[j].tail {
        containers := containers[j := containers[j].(tail := el)];
      }
    }

    /** The element's own links, moved as far as the element. */
    method ShiftLinks(j: nat, s: nat, magnitude: int, whichWay: int)
      requires Shape() && j < |containers| && s < buffer.Length && (whichWay == 1 || whichWay == -1)
      modifies buffer
      ensures Shape()
      ensures forall x :: 0 <= x < buffer.Length && x != s ==> buffer[x] == old(buffer[x])
      ensures LinksShifted(old(buffer[s]), buffer[s], containers[j], TransformPtr(0, magnitude, whichWay))
      ensures SameBut(old(buffer[s]), buffer[s], containers[j])
    {
      var k := containers[j].column;
      if containers[j].DList? {
        var prev, next := buffer[s][k], buffer[s][k + 1];
        if prev != 0 {
          buffer[s] := buffer[s][k := TransformPtr(prev, magnitude, whichWay)];
        }
        if next != 0 {
          buffer[s] := buffer[s][k + 1 := TransformPtr(next, magnitude, whichWay)];
        }
      } else {
        var next := buffer[s][k];
        if next != 0 {
          buffer[s] := buffer[s][k := TransformPtr(next, magnitude, whichWay)];
        }
      }
    }

    /** The links of the neighbours in a doubly linked list. */
    method TurnNeighbours(j: nat, el: int, ghost to: nat, ghost src: nat, ghost live: set<nat>)
      requires Shape() && j < |containers| && containers[j].DList?
      requires to < buffer.Length && el == Addr(G(), to)
      requires Pending(G(), buffer[..], Rightful(G(), containers[j], orders[j]), orders[j], src, to, live)
      modifies buffer
      ensures Shape()
      ensures var order2 := Moved(orders[j], src, to);
              Settled(G(), buffer[..], Rightful(G(), containers[j], order2), order2, live - {src} + {to})
      ensures OnlyLinks(old(buffer[..]), buffer[..], containers[j])
    {
      hide Addr, Slot, Reads, Linked, NullElsewhere, Copied, PtrAt, Settled, Pending;
      ghost var rows, c := buffer[..], Rightful(G(), containers[j], orders[j]);
      ghost var p := PendingLinks(G(), rows, c, orders[j], src, to, live);
      SlotOfAddr(G(), to);
      var s, k := Slot(Space(base, objsize), el), containers[j].column;
      var prev, next := buffer[s][k], buffer[s][k + 1];
      if prev != 0 {
        var q := Slot(Space(base, objsize), prev);
        buffer[q] := buffer[q][k + 1 := el];
      }
      if next != 0 {
        var q := Slot(Space(base, objsize), next);
        buffer[q] := buffer[q][k := el];
      }
      RightfulTurned(G(), containers[j], orders[j], src, to);
      DListDone(G(), rows, buffer[..], c, TurnedEnds(c, Addr(G(), src), el), orders[j], src, to, live, p);
      SameLinkWords(rows, buffer[..], c, containers[j]);
    }

    static lemma SameLinkWords(rows: seq<Row>, rows2: seq<Row>, c: Container, d: Container)
      requires OnlyLinks(rows, rows2, c) && SameColumn(c, d)
      ensures OnlyLinks(rows, rows2, d)
    {
      forall s | 0 <= s < |rows|
        ensures SameBut(rows[s], rows2[s], d)
      {
        assert SameBut(rows[s], rows2[s], c);
      }
    }

    /** jr_DListTransformPrefix for the element at address el, which is slot to;
        after a single move the old address was that of slot src. Only the turned
        ends depend on what the ends were. */
    method DListTransformPrefix(j: nat, el: int, magnitude: int, whichWay: int, allElements: bool,
                                ghost to: nat, ghost src: nat, ghost live: set<nat>)
      requires j < |containers| && containers[j].DList?
      requires Transforming(j, el, magnitude, whichWay, allElements, to, src, live)
      modifies this`containers, buffer
      ensures Shape() && containers == old(containers)[j := containers[j]]
      ensures OnlyLinks(old(buffer[..]), buffer[..], old(containers[j]))
      ensures containers[j] == TurnedEnds(old(containers[j]), TransformPtr(el, magnitude, -whichWay), el)
      ensures !allElements ==> Repaired(j, Moved(orders[j], src, to), live - {src} + {to})
      ensures allElements ==> BulkStep(old(containers[j]), old(buffer[..]), buffer[..], to, TransformPtr(0, magnitude, whichWay))
    {
      hide Addr, Slot, Settled, Pending, LaidOut, PtrAt;
      ghost var c2 := TurnedEnds(containers[j], TransformPtr(el, magnitude, -whichWay), el);
      if allElements {
        SlotOfAddr(G(), to);
        ShiftLinks(j, Slot(Space(base, objsize), el), magnitude, whichWay);
      } else {
        TurnNeighbours(j, el, to, src, live);
      }
      TurnEnds(j, TransformPtr(el, magnitude, -whichWay), el);
    }

    ghost predicate Repaired(j: nat, order: seq<nat>, live: set<nat>)
      requires j < |containers|
      reads this, buffer
    {
      LinksLead(G(), buffer[..], containers[j], order, live)
    }

    /** What a repair of one container for one element starts from. */
    ghost predicate Transforming(j: nat, el: int, magnitude: int, whichWay: int, allElements: bool, to: nat, src: nat, live: set<nat>)
      requires j < |containers|
      reads this, buffer
    {
      && Shape() && to < buffer.Length && el == Addr(G(), to) && (whichWay == 1 || whichWay == -1)
      && (!allElements ==>
            && TransformPtr(el, magnitude, -whichWay) == Addr(G(), src)
            && Waiting(j, to, src, live))
    }

    /** Container j waits for its links to be repaired. */
    ghost predicate Waiting(j: nat, to: nat, src: nat, live: set<nat>)
      requires Shape() && j < |containers|
      reads this, buffer
    {
      LinksWait(G(), buffer[..], containers[j], orders[j], src, to, live)
    }

    /** jr_LListTransformPrefix: after a single move the link to the old address
        is found by walking the list. */
    method LListTransformPrefix(j: nat, el: int, magnitude: int, whichWay: int, allElements: bool,
                                ghost to: nat, ghost src: nat, ghost live: set<nat>)
      requires j < |containers| && containers[j].LList?
      requires Transforming(j, el, magnitude, whichWay, allElements, to, src, live)
      modifies this`containers, buffer
      ensures Shape() && containers == old(containers)[j := containers[j]]
      ensures OnlyLinks(old(buffer[..]), buffer[..], old(containers[j]))
      ensures containers[j] == TurnedEnds(old(containers[j]), TransformPtr(el, magnitude, -whichWay), el)
      ensures !allElements ==> Repaired(j, Moved(orders[j], src, to), live - {src} + {to})
      ensures allElements ==> BulkStep(old(containers[j]), old(buffer[..]), buffer[..], to, TransformPtr(0, magnitude, whichWay))
    {
      hide Addr, Slot, Settled, Pending, LaidOut, PtrAt;
      var oldEl := TransformPtr(el, magnitude, -whichWay);
      TurnEnds(j, oldEl, el);
      if allElements {
        SlotOfAddr(G(), to);
        ShiftLinks(j, Slot(Space(base, objsize), el), magnitude, whichWay);
      } else {
        RightfulTurned(G(), containers[j], orders[j], src, to);
        TurnPredecessor(j, oldEl, el, to, src, live);
      }
    }

    /** The walk along a singly linked list whose head and tail have just been
        turned. */
    method TurnPredecessor(j: nat, oldEl: int, el: int, ghost to: nat, ghost src: nat, ghost live: set<nat>)
      requires Shape() && j < |containers| && containers[j].LList?
      requires to < buffer.Length && el == Addr(G(), to) && oldEl == Addr(G(), src)
      requires containers[j].head == Turned(PtrAt(G(), orders[j], 0), oldEl, el)
      requires Pending(G(), buffer[..], Rightful(G(), containers[j], orders[j]), orders[j], src, to, live)
      modifies buffer
      ensures Shape()
      ensures var order2 := Moved(orders[j], src, to);
              Settled(G(), buffer[..], Rightful(G(), containers[j], order2), order2, live - {src} + {to})
      ensures OnlyLinks(old(buffer[..]), buffer[..], containers[j])
    {
      hide Addr, Slot, Reads, Linked, NullElsewhere, Copied, PtrAt, Pending, Settled, Walk, LaidOut, OnlyLinks;
      ghost var rows, order := buffer[..], orders[j];
      ghost var c := Rightful(G(), containers[j], order);
      var k := containers[j].column;
      ghost var p := PendingLinks(G(), rows, c, order, src, to, live);
      var prev, next := 0, containers[j].head;
      ghost var q: nat := 0;
      WalkStart(G(), rows, c, order, src, to, live);
      while next != 0
        invariant q <= |order| && (p > 0 ==> q <= p)
        invariant next == Walk(G(), order, src, to, q) && (next == 0 <==> q == |order|)
        invariant prev == if q == 0 then 0 else Walk(G(), order, src, to, q - 1)
        invariant buffer[..] == rows && Shape()
        decreases |order| - q
      {
        WalkStep(G(), rows, c, order, src, to, live, p, q);
        if next == oldEl {
          WalkStep(G(), rows, c, order, src, to, live, p, q - 1);
          if prev != 0 {
            var s := Slot(Space(base, objsize), prev);
            buffer[s] := buffer[s][k := el];
          }
          break;
        }
        prev := next;
        next := buffer[Slot(Space(base, objsize), next)][k];
        q := q + 1;
      }
      RightfulTurned(G(), containers[j], order, src, to);
      LListDone(G(), rows, buffer[..], c, TurnedEnds(c, oldEl, el), order, src, to, live, p);
      SameLinkWords(rows, buffer[..], c, containers[j]);
    }

    /** The containers read as their sequences of slots, but for heads and tails of
        doubly linked lists and tails of singly linked ones, which may lead elsewhere. */
    ghost predicate Threaded(live: set<nat>)
      reads this, buffer
    {
      Shape() && forall j :: 0 <= j < |containers| ==> Repaired(j, orders[j], live)
    }

    /** All heads and tails are those the sequences of slots ask for. */
    ghost predicate EndsHold()
      requires |orders| == |containers|
      reads this
    {
      forall j :: 0 <= j < |containers| ==> containers[j] == Rightful(G(), containers[j], orders[j])
    }

    lemma ReadingIs(live: set<nat>)
      ensures Reading(live) <==> Threaded(live) && EndsHold()
    {
      hide LaidOut, NoDup, Linked, NullElsewhere, Within, PtrAt;
      if Reading(live) {
        forall j | 0 <= j < |containers|
          ensures Repaired(j, orders[j], live) && containers[j] == Rightful(G(), containers[j], orders[j])
        {
          RightfulIs(G(), buffer[..], containers[j], containers[j], orders[j], live);
        }
      }
      if Threaded(live) && EndsHold() {
        forall j | 0 <= j < |containers|
          ensures Settled(G(), buffer[..], containers[j], orders[j], live)
        {
          assert Repaired(j, orders[j], live);
        }
      }
    }

    /** jr_PrefixArrayTransformElement, after the single move of an element:
        every container repairs its own links. */
    method TransformMoved(el: int, magnitude: int, whichWay: int, ghost to: nat, ghost src: nat, ghost live: set<nat>)
      requires Shape() && to < buffer.Length && el == Addr(G(), to) && (whichWay == 1 || whichWay == -1)
      requires TransformPtr(el, magnitude, -whichWay) == Addr(G(), src)
      requires forall i :: 0 <= i < |containers| ==> Waiting(i, to, src, live)
      modifies this`containers, this`orders, buffer
      ensures Threaded(live - {src} + {to}) && SameLayout(old(containers), containers)
      ensures orders == MovedAll(old(orders), src, to)
      ensures forall i :: 0 <= i < |containers| ==> containers[i] == TurnedEnds(old(containers[i]), Addr(G(), src), el)
      ensures forall x :: 0 <= x < buffer.Length ==> SameData(old(containers), old(buffer[x]), buffer[x])
    {
      hide Addr, LinksLead, LinksWait, LaidOut, OnlyLinks, SameData, Moved, TurnedEnds;
      ghost var live2, before := live - {src} + {to}, buffer[..];
      SameDataItself(containers);
      SameLayoutItself(containers);
      for j := 0 to |containers|
        invariant Shape() && |containers| == |old(containers)| && SameLayout(old(containers), containers)
        invariant forall i :: 0 <= i < j ==> Repaired(i, Moved(orders[i], src, to), live2)
        invariant forall i :: j <= i < |containers| ==> Waiting(i, to, src, live)
        invariant forall i :: 0 <= i < j ==> containers[i] == TurnedEnds(old(containers[i]), Addr(G(), src), el)
        invariant forall i :: j <= i < |containers| ==> containers[i] == old(containers[i])
        invariant orders == old(orders)
        invariant forall x :: 0 <= x < buffer.Length ==> SameData(old(containers), before[x], buffer[..][x])
      {
        ghost var rows, cs := buffer[..], containers;
        forall i | j <= i < |cs|
          ensures LinksWait(G(), rows, cs[i], orders[i], src, to, live)
        {
          assert Waiting(i, to, src, live);
        }
        if containers[j].DList? {
          DListTransformPrefix(j, el, magnitude, whichWay, false, to, src, live);
        } else {
          LListTransformPrefix(j, el, magnitude, whichWay, false, to, src, live);
        }
        forall i | 0 <= i < |cs| && i != j
          ensures i < j ==> Repaired(i, Moved(orders[i], src, to), live2)
          ensures i > j ==> Waiting(i, to, src, live)
        {
          OthersThreaded(G(), rows, buffer[..], cs, objsize, j, i, Moved(orders[i], src, to), src, to, live2);
          OthersThreaded(G(), rows, buffer[..], cs, objsize, j, i, orders[i], src, to, live);
        }
        TurnedColumn(cs[j], TransformPtr(el, magnitude, -whichWay), el);
        LayoutKept(old(containers), cs, containers, j);
        DataKept(old(containers), cs, before, rows, buffer[..], j);
      }
      orders := MovedAll(orders, src, to);
    }

    static lemma TurnedColumn(c: Container, before: int, after: int)
      ensures SameColumn(c, TurnedEnds(c, before, after))
    {
    }

    /** The body of the shifting loops: an element's words are copied, then every
        container repairs its links. A head or tail that led elsewhere moves along
        when it led to the element, and no other. */
    method MoveThreaded(src: nat, to: nat, magnitude: int, whichWay: int, ghost live: set<nat>)
      requires Threaded(live) && src in live && to !in live && src < buffer.Length && to < buffer.Length
      requires whichWay == 1 || whichWay == -1
      requires TransformPtr(Addr(G(), to), magnitude, -whichWay) == Addr(G(), src)
      modifies this`containers, this`orders, buffer
      ensures Threaded(live - {src} + {to}) && SameLayout(old(containers), containers)
      ensures orders == MovedAll(old(orders), src, to)
      ensures forall i :: 0 <= i < |containers| ==> containers[i] == TurnedEnds(old(containers[i]), Addr(G(), src), Addr(G(), to))
      ensures forall x :: 0 <= x < buffer.Length ==>
        SameData(old(containers), if x == to then old(buffer[src]) else old(buffer[x]), buffer[x])
    {
      hide Addr, Settled, Pending, SameData, Moved, Rightful, PtrAt;
      ghost var rows := buffer[..];
      assert forall j :: 0 <= j < |containers| ==> Repaired(j, orders[j], live);
      for i := 0 to objsize
        invariant containers == old(containers) && orders == old(orders)
        invariant Positive(G()) && LaidOut(containers, objsize) && |orders| == |containers|
        invariant |buffer[to]| == objsize && buffer[to][..i] == rows[src][..i]
        invariant forall x :: 0 <= x < buffer.Length && x != to ==> buffer[x] == rows[x]
      {
        buffer[to] := buffer[to][i := buffer[src][i]];
      }
      assert buffer[to] == buffer[to][..objsize] && rows[src] == rows[src][..objsize];
      assert buffer[..] == rows[to := rows[src]];
      forall j | 0 <= j < |containers|
        ensures Waiting(j, to, src, live)
      {
        ColumnsFit(containers, objsize, j);
        RightfulWidth(G(), containers[j], orders[j]);
        CopyPends(G(), rows, buffer[..], Rightful(G(), containers[j], orders[j]), orders[j], src, to, live);
      }
      TransformMoved(Addr(Space(base, objsize), to), magnitude, whichWay, to, src, live);
    }

    static lemma RightfulWidth(g: Space, c: Container, order: seq<nat>)
      ensures Rightful(g, c, order).column == c.column && Width(Rightful(g, c, order)) == Width(c)
    {
    }

    /** The same for containers whose heads and tails are right: they stay right. */
    method MoveElement(src: nat, to: nat, magnitude: int, whichWay: int, ghost live: set<nat>)
      requires Reading(live) && src in live && to !in live && src < buffer.Length && to < buffer.Length
      requires whichWay == 1 || whichWay == -1
      requires TransformPtr(Addr(G(), to), magnitude, -whichWay) == Addr(G(), src)
      modifies this`containers, this`orders, buffer
      ensures Reading(live - {src} + {to}) && SameLayout(old(containers), containers)
      ensures orders == MovedAll(old(orders), src, to)
      ensures forall x :: 0 <= x < buffer.Length ==>
        SameData(old(containers), if x == to then old(buffer[src]) else old(buffer[x]), buffer[x])
    {
      hide Addr, Settled, SameData, Moved, Rightful, TurnedEnds, Repaired, LaidOut, SameLayout;
      ghost var cs, before := containers, orders;
      ReadingIs(live);
      MoveThreaded(src, to, magnitude, whichWay, live);
      forall j | 0 <= j < |containers|
        ensures containers[j] == Rightful(G(), containers[j], orders[j])
      {
        RightfulTurned(G(), cs[j], before[j], src, to);
        TurnedRight(G(), cs[j], before[j], orders[j], Addr(G(), src), Addr(G(), to));
      }
      ReadingIs(live - {src} + {to});
    }

    static lemma TurnedRight(g: Space, c: Container, order: seq<nat>, order2: seq<nat>, before: int, after: int)
      requires c == Rightful(g, c, order) && TurnedEnds(Rightful(g, c, order), before, after) == Rightful(g, c, order2)
      ensures TurnedEnds(c, before, after) == Rightful(g, TurnedEnds(c, before, after), order2)
    {
    }

    /** jr_PrefixArrayTransformElement, when all elements have moved together. */
    method TransformEach(el: int, magnitude: int, whichWay: int, ghost to: nat)
      requires Shape() && to < buffer.Length && el == Addr(G(), to) && (whichWay == 1 || whichWay == -1)
      modifies this`containers, buffer
      ensures Shape() && |containers| == |old(containers)|
      ensures forall x :: 0 <= x < buffer.Length && x != to ==> buffer[x] == old(buffer[x])
      ensures forall i :: 0 <= i < |containers| ==>
        containers[i] == TurnedEnds(old(containers[i]), TransformPtr(el, magnitude, -whichWay), el)
      ensures forall i :: 0 <= i < |containers| ==>
        LinksShifted(old(buffer[to]), buffer[to], old(containers[i]), TransformPtr(0, magnitude, whichWay))
      ensures SameData(old(containers), old(buffer[to]), buffer[to])
    {
      hide Addr, Settled, Pending, SameData, LinksShifted, SameLinks, SameBut;
      ghost var d, oldEl := TransformPtr(0, magnitude, whichWay), TransformPtr(el, magnitude, -whichWay);
      ghost var cs, row := containers, buffer[to];
      SameDataItself(cs);
      SameLinksItself(row);
      for j := 0 to |containers|
        invariant Shape() && |containers| == |cs|
        invariant forall x :: 0 <= x < buffer.Length && x != to ==> buffer[x] == old(buffer[x])
        invariant forall i :: 0 <= i < j ==> containers[i] == TurnedEnds(cs[i], oldEl, el)
        invariant forall i :: j <= i < |cs| ==> containers[i] == cs[i]
        invariant forall i :: 0 <= i < j ==> LinksShifted(row, buffer[to], cs[i], d)
        invariant forall i :: j <= i < |cs| ==> SameLinks(row, buffer[to], cs[i])
        invariant SameData(cs, row, buffer[to])
      {
        ghost var row2 := buffer[to];
        if containers[j].DList? {
          DListTransformPrefix(j, el, magnitude, whichWay, true, to, 0, {});
        } else {
          LListTransformPrefix(j, el, magnitude, whichWay, true, to, 0, {});
        }
        forall i | 0 <= i < |cs| && i != j
          ensures i < j ==> LinksShifted(row, buffer[to], cs[i], d)
          ensures i > j ==> SameLinks(row, buffer[to], cs[i])
        {
          BulkOthers(row, row2, buffer[to], cs[j], cs[j], cs[i], cs[i], d);
        }
        LinksSeen(row, row2, buffer[to], cs[j], d);
        DataSeen(cs, row, row2, buffer[to], j);
      }
    }

    /** The words of every slot that is an element, and every container. */
    ghost predicate Valid()
      reads this, buffer
    {
      Reading(Below(freeIndex))
    }

    /** The loop of jr_AListTransformPrefixes, after the buffer has moved by d. */
    method TransformPrefixes(oldBase: int)
      requires Shape() && oldBase > 0
      modifies this`containers, buffer
      ensures Shape() && SameLayout(old(containers), containers)
      ensures forall x :: 0 <= x < buffer.Length ==> SameData(old(containers), old(buffer[x]), buffer[x])
      ensures forall j :: 0 <= j < |containers| ==>
        Passing(Space(oldBase, objsize), old(buffer[..]), buffer[..], old(containers[j]), containers[j], base - oldBase, freeIndex, freeIndex)
    {
      hide Addr, Settled, Pending, SameData, LinksShifted, Passing, LaidOut;
      var magnitude, whichWay := if oldBase > base then oldBase - base else base - oldBase, if oldBase > base then -1 else 1;
      ghost var g, d, rows, cs := Space(oldBase, objsize), base - oldBase, buffer[..], containers;
      SameDataItself(cs);
      PassStart(g, rows, cs, d, freeIndex);
      for s := 0 to freeIndex
        invariant Shape() && |containers| == |cs|
        invariant forall j :: 0 <= j < |cs| ==> Passing(g, rows, buffer[..], cs[j], containers[j], d, s, freeIndex)
        invariant forall x :: s <= x < buffer.Length ==> buffer[x] == rows[x]
        invariant forall x :: 0 <= x < buffer.Length ==> SameData(cs, rows[x], buffer[x])
        invariant SameLayout(cs, containers)
      {
        ghost var rows2, cs2 := buffer[..], containers;
        NewAddress(base, oldBase, objsize, s);
        TransformEach(Addr(Space(base, objsize), s), magnitude, whichWay, s);
        forall j | 0 <= j < |cs|
          ensures Passing(g, rows, buffer[..], cs[j], containers[j], d, s + 1, freeIndex)
        {
          PassStep(g, rows, rows2, buffer[..], cs[j], cs2[j], d, s, freeIndex);
        }
        SameLayoutData(cs, cs2, rows[s], buffer[s]);
        LayoutStep(cs, cs2, containers, Addr(g, s), Addr(g, s) + d);
      }
    }

    /** jr_AListIncreaseCapacity; newBase is where the allocator puts the buffer
        and extra how many slots more than asked for it turns out to hold. */
    method IncreaseCapacity(newSize: int, newBase: int, extra: nat)
      requires Valid() && newBase > 0
      modifies this`base, this`buffer, this`containers
      ensures Shape() && SameLayout(old(containers), containers)
      ensures newSize <= old(buffer.Length) ==> buffer == old(buffer) && base == old(base) && containers == old(containers)
      ensures newSize > old(buffer.Length) ==> fresh(buffer) && base == newBase && buffer.Length >= newSize
      ensures newSize > old(buffer.Length) ==> buffer.Length >= 2 * old(buffer.Length)
      ensures forall x :: 0 <= x < freeIndex ==> SameData(old(containers), old(buffer[x]), buffer[x])
      ensures newSize > old(buffer.Length) ==> forall j :: 0 <= j < |containers| ==>
        (Reads(G(), buffer[..], containers[j], orders[j]) <==> EndsRight(old(G()), base - old(base), orders[j], freeIndex))
      ensures (newSize > old(buffer.Length) ==>
                 forall j :: 0 <= j < |containers| ==> EndsRight(old(G()), base - old(base), orders[j], freeIndex))
              ==> Valid()
      ensures newSize > old(buffer.Length) ==> forall j :: 0 <= j < |containers| ==>
        && Settled(G(), buffer[..], Rightful(G(), containers[j], orders[j]), orders[j], Below(freeIndex))
        && EndsLead(G(), containers[j], orders[j], FirstLands(old(G()), base - old(base), orders[j], freeIndex),
                    LastLands(old(G()), base - old(base), orders[j], freeIndex))
    {
      hide Addr, Settled, Pending, SameData, LinksShifted, Passing, LaidOut, Overtaken, EndsRight, Reads, EndsLead, FirstLands, LastLands, Rightful;
      SameDataItself(containers);
      SameLayoutItself(containers);
      if newSize <= buffer.Length {
        return;
      }
      var size := if buffer.Length != 0 && newSize < 2 * buffer.Length then 2 * buffer.Length else newSize;
      ghost var rows, cs, n := buffer[..], containers, freeIndex;
      var oldBase, oldLength := base, buffer.Length;
      var grown := Reallocate(size + extra);
      base, buffer := newBase, grown;
      ghost var g, moved := Space(oldBase, objsize), buffer[..];
      forall j | 0 <= j < |containers|
        ensures Settled(g, moved, cs[j], orders[j], Below(n))
      {
        GrownSettled(g, rows, moved, cs[j], orders[j], Below(n), n);
      }
      TransformPrefixes(oldBase);
      forall j | 0 <= j < |containers|
        ensures Reads(G(), buffer[..], containers[j], orders[j]) <==> EndsRight(g, base - oldBase, orders[j], n)
        ensures EndsRight(g, base - oldBase, orders[j], n) ==> Settled(G(), buffer[..], containers[j], orders[j], Below(n))
        ensures Settled(G(), buffer[..], Rightful(G(), containers[j], orders[j]), orders[j], Below(n))
        ensures EndsLead(G(), containers[j], orders[j], FirstLands(g, base - oldBase, orders[j], n), LastLands(g, base - oldBase, orders[j], n))
      {
        PassLands(g, moved, buffer[..], cs[j], containers[j], orders[j], base - oldBase, n, Below(n));
        PassDone(g, moved, buffer[..], cs[j], containers[j], orders[j], base - oldBase, n, Below(n));
      }
    }

    /** A larger buffer with the same rows in front. */
    method Reallocate(size: nat) returns (grown: array<Row>)
      requires size >= buffer.Length && forall s :: 0 <= s < buffer.Length ==> |buffer[s]| == objsize
      ensures fresh(grown) && grown.Length == size
      ensures forall s :: 0 <= s < buffer.Length ==> grown[s] == buffer[s]
      ensures forall s :: 0 <= s < size ==> |grown[s]| == objsize
    {
      var blank: Row := seq(objsize, _ => 0);
      grown := new Row[size];
      for s := 0 to size
        invariant forall x :: 0 <= x < s ==> |grown[x]| == objsize
        invariant forall x :: 0 <= x < s && x < buffer.Length ==> grown[x] == buffer[x]
      {
        grown[s] := if s < buffer.Length then buffer[s] else blank;
      }
    }

    /** Slots of all containers are below n. */
    lemma SlotsWithin(n: nat)
      requires Reading(Below(n))
      ensures forall j, p :: 0 <= j < |orders| && 0 <= p < |orders[j]| ==> orders[j][p] < n
    {
      forall j, p | 0 <= j < |orders| && 0 <= p < |orders[j]|
        ensures orders[j][p] < n
      {
        assert Settled(G(), buffer[..], containers[j], orders[j], Below(n));
        assert orders[j][p] in Below(n);
      }
    }

    /** One turn of the loop below: the element under the free slot moves into it. */
    method StepUp(curr: nat, ghost n: nat)
      requires Threaded(Below(n + 1) - {curr}) && 0 < curr <= n < buffer.Length
      modifies this`containers, this`orders, buffer
      ensures Threaded(Below(n + 1) - {curr - 1}) && SameLayout(old(containers), containers)
      ensures orders == MovedAll(old(orders), curr - 1, curr)
      ensures forall j :: 0 <= j < |containers| ==>
        containers[j] == TurnedEnds(old(containers[j]), Addr(G(), curr - 1), Addr(G(), curr))
      ensures forall x :: 0 <= x < buffer.Length ==>
        SameData(old(containers), if x == curr then old(buffer[curr - 1]) else old(buffer[x]), buffer[x])
    {
      hide Addr, Settled, Pending, SameData, LaidOut, SameLayout, Below, Repaired, TurnedEnds;
      UpSlot(G(), curr);
      GapStep(n, curr);
      MoveThreaded(curr - 1, curr, objsize, 1, Below(n + 1) - {curr});
    }

    /** The shifting loop of jr_AListNewPrevElementPtr. Heads and tails follow the
        slots they lead to, rightly or not. */
    method ShiftUp(i: nat)
      requires Threaded(Below(freeIndex)) && i <= freeIndex < buffer.Length
      modifies this`containers, this`orders, buffer
      ensures Threaded(Below(freeIndex + 1) - {i}) && SameLayout(old(containers), containers)
      ensures orders == Raised(old(orders), i)
      ensures forall j :: 0 <= j < |containers| ==> EndsRaised(G(), old(containers[j]), containers[j], i, freeIndex)
      ensures forall x :: 0 <= x < i ==> SameData(old(containers), old(buffer[x]), buffer[x])
      ensures forall x :: i <= x < freeIndex ==> SameData(old(containers), old(buffer[x]), buffer[x + 1])
    {
      hide Settled, SameData, LaidOut, Raised, SameLayout, Below, Repaired, EndsRaised, TurnedEnds, Addr;
      ghost var cs, rows, n := containers, buffer[..], freeIndex;
      SameDataItself(cs);
      SameLayoutItself(cs);
      ThreadedWithin(n);
      RaiseNone(orders, n);
      NothingRaised(G(), cs, n);
      assert Below(n + 1) - {n} == Below(n);
      var curr := freeIndex;
      while curr > i
        invariant i <= curr <= n == freeIndex < buffer.Length
        invariant Threaded(Below(n + 1) - {curr}) && SameLayout(cs, containers)
        invariant orders == Raised(old(orders), curr)
        invariant forall j :: 0 <= j < |containers| ==> EndsRaised(G(), cs[j], containers[j], curr, n)
        invariant forall x :: 0 <= x < curr ==> SameData(cs, rows[x], buffer[x])
        invariant forall x :: curr <= x < n ==> SameData(cs, rows[x], buffer[x + 1])
      {
        ghost var cs2, was := containers, buffer[..];
        StepUp(curr, n);
        RaiseOne(old(orders), curr);
        DataMoves(cs, cs2, rows, was, buffer[..]);
        LayoutJoined(cs, cs2, containers);
        forall j | 0 <= j < |containers|
          ensures EndsRaised(G(), cs[j], containers[j], curr - 1, n)
        {
          EndsRaisedMore(G(), cs[j], cs2[j], containers[j], curr, n);
        }
        curr := curr - 1;
      }
    }

    lemma ThreadedWithin(n: nat)
      requires Threaded(Below(n))
      ensures forall j, p :: 0 <= j < |orders| && 0 <= p < |orders[j]| ==> orders[j][p] < n
    {
      hide Below, Reads, NullElsewhere, LaidOut;
      forall j, p | 0 <= j < |orders| && 0 <= p < |orders[j]|
        ensures orders[j][p] < n
      {
        assert Repaired(j, orders[j], Below(n));
        assert orders[j][p] in Below(n);
      }
    }

    /** Keeping track of where data words went, over one more move. */
    static lemma DataMoves(cs: seq<Container>, cs2: seq<Container>, rows: seq<Row>, was: seq<Row>, now: seq<Row>)
      requires SameLayout(cs, cs2)
      ensures forall x, y, z {:trigger SameData(cs, rows[x], was[y]), SameData(cs2, was[y], now[z])} ::
        (0 <= x < |rows| && 0 <= y < |was| && 0 <= z < |now| && SameData(cs, rows[x], was[y]) && SameData(cs2, was[y], now[z])) ==>
          SameData(cs, rows[x], now[z])
    {
      forall x, y, z | 0 <= x < |rows| && 0 <= y < |was| && 0 <= z < |now| && SameData(cs, rows[x], was[y]) && SameData(cs2, was[y], now[z])
        ensures SameData(cs, rows[x], now[z])
      {
        SameLayoutData(cs, cs2, was[y], now[z]);
      }
    }

    static lemma LayoutJoined(cs: seq<Container>, cs2: seq<Container>, cs3: seq<Container>)
      requires SameLayout(cs, cs2) && SameLayout(cs2, cs3)
      ensures SameLayout(cs, cs3)
    {
      forall j | 0 <= j < |cs|
        ensures SameColumn(cs[j], cs3[j])
      {
        assert SameColumn(cs[j], cs2[j]) && SameColumn(cs2[j], cs3[j]);
      }
    }

    /** Room for one more element, in a larger buffer if need be. */
    method MakeRoom(newBase: int, extra: nat)
      requires Valid() && newBase > 0
      modifies this`base, this`buffer, this`containers
      ensures Shape() && freeIndex < buffer.Length && (buffer == old(buffer) || fresh(buffer))
      ensures Valid() <==> old(CanGrow(newBase))
      ensures old(HeadsStay(newBase)) ==> Threaded(Below(freeIndex))
      ensures forall j :: 0 <= j < |containers| ==>
        EndsLead(G(), containers[j], orders[j], old(HeadSlot(j, newBase)), old(TailSlot(j, newBase)))
      ensures SameLayout(old(containers), containers)
      ensures forall x :: 0 <= x < freeIndex ==> SameData(old(containers), old(buffer[x]), buffer[x])
    {
      hide Settled, SameData, LaidOut, EndsRight, EndsLead, Repaired, LandsAt, Addr, Rightful, SameLayout, FirstLands, LastLands, Below, EndsHold;
      SameDataItself(containers);
      SameLayoutItself(containers);
      ReadingIs(Below(freeIndex));
      EndsNow();
      if freeIndex == buffer.Length {
        GrowByOne(newBase, extra);
      }
    }

    /** The same for a full buffer. */
    method GrowByOne(newBase: int, extra: nat)
      requires Valid() && newBase > 0 && freeIndex == buffer.Length
      modifies this`base, this`buffer, this`containers
      ensures Shape() && freeIndex < buffer.Length && fresh(buffer)
      ensures Valid() <==> old(CanGrow(newBase))
      ensures old(HeadsStay(newBase)) ==> Threaded(Below(freeIndex))
      ensures forall j :: 0 <= j < |containers| ==>
        EndsLead(G(), containers[j], orders[j], FirstLands(old(G()), newBase - old(base), orders[j], freeIndex),
                 LastLands(old(G()), newBase - old(base), orders[j], freeIndex))
      ensures SameLayout(old(containers), containers)
      ensures forall x :: 0 <= x < freeIndex ==> SameData(old(containers), old(buffer[x]), buffer[x])
    {
      hide Settled, SameData, LaidOut, EndsRight, EndsLead, Repaired, LandsAt, Addr, Rightful, SameLayout, FirstLands, LastLands, Overtaken, Reads;
      ghost var g, d, stays, cs := G(), newBase - base, HeadsStay(newBase), containers;
      SlotsWithin(freeIndex);
      IncreaseCapacity(freeIndex + 1, newBase, extra);
      AllRead();
      forall j | stays && 0 <= j < |containers|
        ensures Repaired(j, orders[j], Below(freeIndex))
      {
        LayoutAt(cs, containers, j);
        if containers[j].LList? && orders[j] != [] {
          LandsElsewhere(g, d, orders[j][0], freeIndex);
        }
        HeadRight(j, g, d);
      }
    }

    lemma EndsNow()
      requires Valid()
      ensures forall j :: 0 <= j < |containers| ==>
        EndsLead(G(), containers[j], orders[j], if orders[j] == [] then 0 else orders[j][0],
                 if orders[j] == [] then 0 else orders[j][|orders[j]| - 1])
    {
      hide Addr, LaidOut, NoDup, Linked, NullElsewhere, Within;
      forall j | 0 <= j < |containers|
        ensures EndsLead(G(), containers[j], orders[j], if orders[j] == [] then 0 else orders[j][0],
                         if orders[j] == [] then 0 else orders[j][|orders[j]| - 1])
      {
        assert Settled(G(), buffer[..], containers[j], orders[j], Below(freeIndex));
      }
    }

    /** A list whose head has not been overtaken is repaired. */
    lemma HeadRight(j: nat, g: Space, d: int)
      requires Shape() && j < |containers| && Positive(g)
      requires Settled(G(), buffer[..], Rightful(G(), containers[j], orders[j]), orders[j], Below(freeIndex))
      requires EndsLead(G(), containers[j], orders[j], FirstLands(g, d, orders[j], freeIndex), LastLands(g, d, orders[j], freeIndex))
      requires containers[j].LList? && orders[j] != [] ==> orders[j][0] < freeIndex && LandsAt(g, d, orders[j][0], freeIndex) == orders[j][0]
      ensures Repaired(j, orders[j], Below(freeIndex))
    {
      hide Settled, LaidOut, LandsAt, Addr;
    }

    lemma AllRead()
      ensures Valid() ==> forall j :: 0 <= j < |containers| ==> Reads(G(), buffer[..], containers[j], orders[j])
    {
      hide Reads, LaidOut;
      forall j | Valid() && 0 <= j < |containers|
        ensures Reads(G(), buffer[..], containers[j], orders[j])
      {
        assert Settled(G(), buffer[..], containers[j], orders[j], Below(freeIndex));
      }
    }

    /** jr_AListNewTailPtr; the words of the new element are whatever was there. */
    method NewTail(newBase: int, extra: nat) returns (slot: nat)
      requires Valid() && newBase > 0
      modifies this, this.buffer
      ensures freeIndex == old(freeIndex) + 1 && slot == old(freeIndex)
      ensures Shape() && orders == old(orders) && SameLayout(old(containers), containers)
      ensures Reading(Below(freeIndex) - {slot}) <==> old(CanGrow(newBase))
      ensures forall x :: 0 <= x < slot ==> SameData(old(containers), old(buffer[x]), buffer[x])
    {
      hide Settled, SameData, LaidOut, EndsRight;
      MakeRoom(newBase, extra);
      assert Below(freeIndex + 1) - {freeIndex} == Below(freeIndex);
      slot := freeIndex;
      freeIndex := freeIndex + 1;
    }

    /** When the buffer is full it will have to move; it may move to newBase
        unless a head or tail would be overtaken. */
    ghost predicate CanGrow(newBase: int)
      reads this, buffer
    {
      freeIndex == buffer.Length ==>
        forall j :: 0 <= j < |orders| ==> EndsRight(G(), newBase - base, orders[j], freeIndex)
    }

    /** It may move anywhere when only heads of doubly linked lists and tails would be
        overtaken: no repair follows these. */
    ghost predicate HeadsStay(newBase: int)
      requires Positive(G()) && |orders| == |containers|
      reads this, buffer
    {
      freeIndex == buffer.Length ==>
        forall j :: 0 <= j < |orders| && containers[j].LList? && orders[j] != [] ==> !Overtaken(G(), newBase - base, orders[j][0], freeIndex)
    }

    /** The slot that the head of list j leads to once there is room. */
    ghost function HeadSlot(j: nat, newBase: int): nat
      requires Positive(G()) && j < |orders|
      reads this, buffer
    {
      if freeIndex == buffer.Length then FirstLands(G(), newBase - base, orders[j], freeIndex)
      else if orders[j] == [] then 0 else orders[j][0]
    }

    ghost function TailSlot(j: nat, newBase: int): nat
      requires Positive(G()) && j < |orders|
      reads this, buffer
    {
      if freeIndex == buffer.Length then LastLands(G(), newBase - base, orders[j], freeIndex)
      else if orders[j] == [] then 0 else orders[j][|orders[j]| - 1]
    }

    /** jr_AListNewPrevElementPtr: opens slot i; i is the number of elements for
        the null pointer. All links are repaired; the containers read as before,
        renumbered, if and only if no end was overtaken when the buffer moved, and
        an end that was leads to a slot which is given. */
    method NewPrevElement(i: nat, newBase: int, extra: nat)
      requires Valid() && newBase > 0 && HeadsStay(newBase) && i <= freeIndex
      modifies this, this.buffer
      ensures freeIndex == old(freeIndex) + 1
      ensures Threaded(Below(freeIndex) - {i}) && SameLayout(old(containers), containers)
      ensures orders == Raised(old(orders), i)
      ensures forall j :: 0 <= j < |containers| ==>
        EndsLead(G(), containers[j], orders[j], RaisedSlot(old(HeadSlot(j, newBase)), i), RaisedSlot(old(TailSlot(j, newBase)), i))
      ensures Reading(Below(freeIndex) - {i}) <==> old(CanGrow(newBase))
      ensures forall x :: 0 <= x < i ==> SameData(old(containers), old(buffer[x]), buffer[x])
      ensures forall x :: i <= x < old(freeIndex) ==> SameData(old(containers), old(buffer[x]), buffer[x + 1])
    {
      hide Settled, SameData, LaidOut, EndsRight, SameLayout, Raised, Below, Repaired, EndsLead, EndsRaised, HeadSlot, TailSlot, CanGrow,
        Rightful, Addr, RaisedSlot;
      ghost var cs, rows, n, before := containers, buffer[..], freeIndex, orders;
      SlotsWithin(n);
      EndSlotsWithin(newBase);
      MakeRoom(newBase, extra);
      ghost var g, cs2, was, right := G(), containers, buffer[..], EndsHold();
      ReadingIs(Below(n));
      ShiftUp(i);
      DataMoves(cs, cs2, rows, was, buffer[..]);
      LayoutJoined(cs, cs2, containers);
      CountUp(Below(n + 1) - {i});
      forall j | 0 <= j < |containers|
        ensures EndsLead(G(), containers[j], orders[j], RaisedSlot(old(HeadSlot(j, newBase)), i), RaisedSlot(old(TailSlot(j, newBase)), i))
        ensures containers[j] == Rightful(G(), containers[j], orders[j]) <==> cs2[j] == Rightful(g, cs2[j], before[j])
      {
        LayoutAt(cs2, containers, j);
        LeadRaised(g, cs2[j], containers[j], before[j], orders[j], old(HeadSlot(j, newBase)), old(TailSlot(j, newBase)), i, n);
      }
      ReadingIs(Below(freeIndex) - {i});
    }

    /** The count of elements grows. */
    method CountUp(ghost live: set<nat>)
      requires Threaded(live) && freeIndex < buffer.Length
      modifies this`freeIndex
      ensures freeIndex == old(freeIndex) + 1 && Threaded(live)
    {
      hide Settled, LaidOut, Rightful, PtrAt;
      assert forall j :: 0 <= j < |containers| ==> Repaired(j, orders[j], live);
      freeIndex := freeIndex + 1;
    }

    static lemma LayoutAt(cs: seq<Container>, cs2: seq<Container>, j: nat)
      requires SameLayout(cs, cs2) && j < |cs|
      ensures SameColumn(cs[j], cs2[j])
    {
    }

    lemma EndSlotsWithin(newBase: int)
      requires Valid()
      ensures forall j :: 0 <= j < |orders| && orders[j] != [] ==> HeadSlot(j, newBase) < freeIndex && TailSlot(j, newBase) < freeIndex
    {
      hide Settled, LaidOut, LandsAt;
      SlotsWithin(freeIndex);
    }

    /** The first slot that deleting k elements from slot i takes away, when its
        elements are not those from i on: the count drops by k in any case. */
    function FirstLost(i: nat, k: int): int
      reads this
    {
      if i + k <= freeIndex then i else freeIndex - k
    }

    /** jr_AListDeleteRangeFromPtr: k elements from slot i on; those taken away are
        in no container any more. */
    method DeleteRange(i: nat, k: int)
      requires Valid() && i < freeIndex && k <= freeIndex
      requires forall j, p :: 0 <= j < |orders| && 0 <= p < |orders[j]| ==> !(FirstLost(i, k) <= orders[j][p] < i + k)
      modifies this`containers, this`orders, this`freeIndex, buffer
      ensures Valid() && SameLayout(old(containers), containers)
      ensures freeIndex == if k > 0 then old(freeIndex) - k else old(freeIndex)
      ensures k <= 0 || i + k > old(freeIndex) ==> orders == old(orders) && buffer[..] == old(buffer[..])
      ensures k > 0 && i + k <= old(freeIndex) ==> orders == Lowered(old(orders), i + k, k, old(freeIndex))
      ensures forall x :: 0 <= x < i ==> SameData(old(containers), old(buffer[x]), buffer[x])
      ensures k > 0 ==> forall x :: i + k <= x < old(freeIndex) ==> SameData(old(containers), old(buffer[x]), buffer[x - k])
    {
      hide Addr, Settled, Pending, SameData, LaidOut, Below, Lowered;
      SameDataItself(containers);
      SameLayoutItself(containers);
      if k <= 0 {
        return;
      }
      if i + k <= freeIndex {
        forall j | 0 <= j < |containers|
          ensures Settled(G(), buffer[..], containers[j], orders[j], Kept(k, freeIndex, i + k))
        {
          ShrinkToKept(G(), buffer[..], containers[j], orders[j], i, k, freeIndex);
        }
        ShiftDown(i, k);
        ClosedLive(k, freeIndex);
      } else {
        forall j | 0 <= j < |containers|
          ensures Settled(G(), buffer[..], containers[j], orders[j], Below(freeIndex - k))
        {
          ShrinkBelow(G(), buffer[..], containers[j], orders[j], k, freeIndex);
        }
      }
      freeIndex := freeIndex - k;
    }

    static lemma ShrinkBelow(g: Space, rows: seq<Row>, c: Container, order: seq<nat>, k: nat, n: nat)
      requires Settled(g, rows, c, order, Below(n)) && k <= n
      requires forall p :: 0 <= p < |order| ==> !(n - k <= order[p] < n)
      ensures Settled(g, rows, c, order, Below(n - k))
    {
      forall p | 0 <= p < |order|
        ensures order[p] in Below(n - k)
      {
        assert order[p] in Below(n);
      }
      ShrunkSettled(g, rows, c, order, Below(n), Below(n - k));
    }

    /** The shifting loop of jr_AListDeleteRangeFromPtr. */
    method ShiftDown(i: nat, k: nat)
      requires k > 0 && i + k <= freeIndex && Reading(Kept(k, freeIndex, i + k))
      requires forall j, p :: 0 <= j < |orders| && 0 <= p < |orders[j]| ==> !(i <= orders[j][p] < i + k)
      modifies this`containers, this`orders, buffer
      ensures Reading(Kept(k, freeIndex, freeIndex)) && SameLayout(old(containers), containers)
      ensures orders == Lowered(old(orders), i + k, k, freeIndex)
      ensures forall x :: 0 <= x < i ==> SameData(old(containers), old(buffer[x]), buffer[x])
      ensures forall x :: i + k <= x < freeIndex ==> SameData(old(containers), old(buffer[x]), buffer[x - k])
    {
      hide Addr, Settled, Pending, SameData, LaidOut, Kept, Lowered, SameLayout;
      ghost var cs, rows, n, before := containers, buffer[..], freeIndex, orders;
      SameDataItself(cs);
      SameLayoutItself(cs);
      LowerNone(before, i + k, k);
      var m := i + k;
      while m < freeIndex
        invariant i + k <= m <= n == freeIndex
        invariant Reading(Kept(k, n, m)) && SameLayout(cs, containers)
        invariant orders == Lowered(before, i + k, k, m)
        invariant forall x :: 0 <= x < i || m <= x < n ==> SameData(cs, rows[x], buffer[x])
        invariant forall x :: i + k <= x < m ==> SameData(cs, rows[x], buffer[x - k])
      {
        ghost var cs2, was, live := containers, buffer[..], Kept(k, n, m);
        Distance(G(), m, k);
        KeptStep(k, n, m);
        MoveElement(m, m - k, k * objsize, -1, live);
        LowerOne(before, i + k, k, m);
        DataMoves(cs, cs2, rows, was, buffer[..]);
        LayoutJoined(cs, cs2, containers);
        m := m + 1;
      }
    }

    static lemma ShrinkToKept(g: Space, rows: seq<Row>, c: Container, order: seq<nat>, i: nat, k: nat, n: nat)
      requires Settled(g, rows, c, order, Below(n)) && i + k <= n
      requires forall p :: 0 <= p < |order| ==> !(i <= order[p] < i + k)
      ensures Settled(g, rows, c, order, Kept(k, n, i + k))
    {
      forall p | 0 <= p < |order|
        ensures order[p] in Kept(k, n, i + k)
      {
        assert order[p] in Below(n);
      }
      ShrunkSettled(g, rows, c, order, Below(n), Kept(k, n, i + k));
    }

    // ----- the doubly linked lists among the containers -----

    /** jr_DListInsertElement: el, slot at, goes in front of next, which is the
        element at position p of the list, or null for the end of the list. Nothing
        is asked of the element's own links; it counts as live once its links in
        the other doubly linked lists are null or lead into them. */
    method DListInsertElement(j: nat, next: int, el: int, ghost p: nat, ghost at: nat, ghost live: set<nat>)
      requires Reading(live) && j < |containers| && containers[j].DList?
      requires at < buffer.Length && at !in orders[j] && el == Addr(G(), at)
      requires p <= |orders[j]| && next == PtrAt(G(), orders[j], p)
      modifies this`containers, this`orders, buffer
      ensures Shape() && SameLayout(old(containers), containers)
      ensures orders == old(orders)[j := InsertedAt(old(orders[j]), p, at)]
      ensures OnlyLinks(old(buffer[..]), buffer[..], old(containers[j]))
      ensures Settled(G(), buffer[..], containers[j], orders[j], live + {at})
      ensures forall i :: 0 <= i < |containers| && i != j ==> Settled(G(), buffer[..], containers[i], orders[i], live)
      ensures at in live || (forall i :: 0 <= i < |containers| && i != j && containers[i].DList? ==> NullLinks(old(buffer[at]), old(containers)[i]))
              ==> Reading(live + {at})
    {
      hide Addr, Slot, Reads, NullElsewhere, PtrAt, LaidOut, Within, OnlyLinks, InsertedAt, NoDup, SameLayout, NullLinks;
      ghost var g, rows, cs, c, order := G(), buffer[..], containers, containers[j], orders[j];
      ghost var c2 := InsertedEnds(g, c, order, p, at);
      var k := containers[j].column;
      ColumnsFit(cs, objsize, j);
      assert Settled(g, rows, c, order, live);
      NeighbourHolds(g, rows, c, order, p);
      NeighbourHolds(g, rows, c, order, p - 1);
      PrevOf(g, rows, c, order, p);
      AddrFacts(g, at, at);
      SlotOfAddr(g, at);
      NotAmong(order, p, at);
      var s := Slot(Space(base, objsize), el);
      buffer[s] := buffer[s][k + 1 := next];
      var prev;
      if next == 0 {
        prev := containers[j].tail;
        containers := containers[j := containers[j].(tail := el)];
      } else {
        var q := Slot(Space(base, objsize), next);
        prev := buffer[q][k];
        buffer[q] := buffer[q][k := el];
      }
      buffer[s] := buffer[s][k := prev];
      if prev == 0 {
        containers := containers[j := containers[j].(head := el)];
      } else {
        var q := Slot(Space(base, objsize), prev);
        buffer[q] := buffer[q][k + 1 := el];
      }
      assert containers[j] == c2;
      SettledInsert(g, rows, buffer[..], c, order, p, at, live);
      orders := orders[j := InsertedAt(order, p, at)];
      OneChanged(g, rows, buffer[..], cs, containers, old(orders), orders, objsize, j, live, live + {at});
      OneMoreEverywhere(g, rows, buffer[..], cs, containers, orders, objsize, j, at, live);
    }

    /** jr_DListExtractElement, for the element of slot at, which stands at position
        p of the list; its links become null. An element with null links that is
        not in the list is left alone, with everything else. */
    method DListExtractElement(j: nat, el: int, ghost p: nat, ghost at: nat, ghost live: set<nat>)
      requires Reading(live) && j < |containers| && containers[j].DList?
      requires at < buffer.Length && el == Addr(G(), at)
      requires at in orders[j] || at in live || NullLinks(buffer[at], containers[j])
      requires at in orders[j] ==> p < |orders[j]| && orders[j][p] == at
      modifies this`containers, this`orders, buffer
      ensures Reading(live) && SameLayout(old(containers), containers)
      ensures at in old(orders[j]) ==> orders == old(orders)[j := RemovedAt(old(orders[j]), p)]
      ensures at in old(orders[j]) ==> OnlyLinks(old(buffer[..]), buffer[..], old(containers[j]))
      ensures at !in old(orders[j]) ==> orders == old(orders) && containers == old(containers) && buffer[..] == old(buffer[..])
    {
      hide Addr, Slot, Reads, NullElsewhere, PtrAt, LaidOut, Within, OnlyLinks, RemovedAt, NoDup, SameLayout, NullLinks;
      ghost var g, rows, cs, c, order := G(), buffer[..], containers, containers[j], orders[j];
      var k := containers[j].column;
      ColumnsFit(cs, objsize, j);
      assert Settled(g, rows, c, order, live);
      AddrFacts(g, at, at);
      SlotOfAddr(g, at);
      SameLayoutItself(cs);
      if at in order {
        ExtractFacts(g, rows, c, order, p);
      } else {
        NotInList(g, rows, c, order, at, live);
      }
      var s := Slot(Space(base, objsize), el);
      var next, prev := buffer[s][k + 1], buffer[s][k];
      if next != 0 {
        var q := Slot(Space(base, objsize), next);
        buffer[q] := buffer[q][k := prev];
      } else if containers[j].tail == el {
        containers := containers[j := containers[j].(tail := prev)];
      }
      if prev != 0 {
        var q := Slot(Space(base, objsize), prev);
        buffer[q] := buffer[q][k + 1 := next];
      } else if containers[j].head == el {
        containers := containers[j := containers[j].(head := next)];
      }
      buffer[s] := buffer[s][k + 1 := 0];
      buffer[s] := buffer[s][k := 0];
      if at in order {
        assert containers[j] == RemovedEnds(g, c, order, p);
        SettledRemove(g, rows, buffer[..], c, order, p, live);
        orders := orders[j := RemovedAt(order, p)];
        OneChanged(g, rows, buffer[..], cs, containers, old(orders), orders, objsize, j, live, live);
      } else {
        assert buffer[s] == rows[s];
        assert buffer[..] == rows;
      }
    }

    /** The links of an element of the list and of its neighbours. */
    static lemma ExtractFacts(g: Space, rows: seq<Row>, c: Container, order: seq<nat>, p: nat)
      requires Positive(g) && c.DList? && Reads(g, rows, c, order) && p < |order|
      ensures |rows[order[p]]| >= c.column + 2
      ensures rows[order[p]][c.column] == PtrAt(g, order, p - 1) && rows[order[p]][c.column + 1] == PtrAt(g, order, p + 1)
      ensures Neighbour(g, rows, c, order, p) && Neighbour(g, rows, c, order, p - 1) && Neighbour(g, rows, c, order, p + 1)
      ensures PtrAt(g, order, p) == Addr(g, order[p])
      ensures p == 0 ==> c.head == PtrAt(g, order, p)
      ensures p == |order| - 1 ==> c.tail == PtrAt(g, order, p)
      ensures p > 0 ==> order[p - 1] != order[p]
      ensures p + 1 < |order| ==> order[p + 1] != order[p]
      ensures 0 < p < |order| - 1 ==> order[p - 1] != order[p + 1]
    {
      hide Addr, Reads, Neighbour;
      NeighbourHolds(g, rows, c, order, p);
      NeighbourHolds(g, rows, c, order, p - 1);
      NeighbourHolds(g, rows, c, order, p + 1);
      OwnLinks(g, rows, c, order, p);
      NeighboursDiffer(g, rows, c, order, p);
    }

    /** Nothing leads to an element that is not in the list. */
    static lemma NotInList(g: Space, rows: seq<Row>, c: Container, order: seq<nat>, at: nat, live: set<nat>)
      requires Positive(g) && c.DList? && Settled(g, rows, c, order, live) && at !in order && at < |rows|
      requires at in live || NullLinks(rows[at], c)
      ensures |rows[at]| >= c.column + 2 && rows[at][c.column] == 0 && rows[at][c.column + 1] == 0
      ensures c.head != Addr(g, at) && c.tail != Addr(g, at)
    {
      hide Addr, Linked, NoDup, PtrAt;
      NotPointedTo(g, order, at, 0);
      NotPointedTo(g, order, at, |order| - 1);
      assert at in live ==> NullLinks(rows[at], c);
    }

    static lemma ColumnsFit(cs: seq<Container>, size: nat, j: nat)
      requires LaidOut(cs, size) && j < |cs|
      ensures cs[j].column + Width(cs[j]) <= size
    {
    }

    /** What stands in front of a position of the list. */
    static lemma PrevOf(g: Space, rows: seq<Row>, c: Container, order: seq<nat>, p: nat)
      requires c.DList? && Reads(g, rows, c, order) && p <= |order|
      ensures if p == |order| then c.tail == PtrAt(g, order, p - 1)
              else |rows[order[p]]| >= c.column + 2 && rows[order[p]][c.column] == PtrAt(g, order, p - 1)
      ensures p == 0 || p == |order| || order[p - 1] != order[p]
    {
      hide Addr, PtrAt;
      assert p < |order| ==> Linked(g, rows[order[p]], c, order, p);
    }

    static lemma OwnLinks(g: Space, rows: seq<Row>, c: Container, order: seq<nat>, p: nat)
      requires c.DList? && Reads(g, rows, c, order) && p < |order|
      ensures |rows[order[p]]| >= c.column + 2
      ensures rows[order[p]][c.column] == PtrAt(g, order, p - 1) && rows[order[p]][c.column + 1] == PtrAt(g, order, p + 1)
      ensures p == 0 ==> c.head == PtrAt(g, order, p)
      ensures p == |order| - 1 ==> c.tail == PtrAt(g, order, p)
    {
      hide Addr, PtrAt, NoDup;
      assert Linked(g, rows[order[p]], c, order, p);
    }

    static lemma NeighboursDiffer(g: Space, rows: seq<Row>, c: Container, order: seq<nat>, p: nat)
      requires Reads(g, rows, c, order) && p < |order|
      ensures p > 0 ==> order[p - 1] != order[p]
      ensures p + 1 < |order| ==> order[p + 1] != order[p]
      ensures 0 < p < |order| - 1 ==> order[p - 1] != order[p + 1]
    {
      hide Addr, PtrAt, Linked;
    }

    static lemma NotAmong(order: seq<nat>, p: nat, at: nat)
      requires at !in order
      ensures forall q :: 0 <= q < |order| ==> order[q] != at
    {
    }

    /** One container changed, and only its own link fields. */
    static lemma OneChanged(g: Space, rows: seq<Row>, rows2: seq<Row>, cs: seq<Container>, cs2: seq<Container>, orders: seq<seq<nat>>, orders2: seq<seq<nat>>, size: nat, j: nat, live: set<nat>, live2: set<nat>)
      requires LaidOut(cs, size) && j < |cs| && |cs2| == |cs| == |orders| == |orders2| && OnlyLinks(rows, rows2, cs[j])
      requires cs2 == cs[j := cs2[j]] && SameColumn(cs[j], cs2[j]) && orders2 == orders[j := orders2[j]]
      requires forall i :: 0 <= i < |cs| ==> Settled(g, rows, cs[i], orders[i], live)
      requires Settled(g, rows2, cs2[j], orders2[j], live2)
      ensures LaidOut(cs2, size) && SameLayout(cs, cs2)
      ensures forall i :: 0 <= i < |cs2| ==> Settled(g, rows2, cs2[i], orders2[i], if i == j then live2 else live)
    {
      LaidOutKept(cs, size, j, cs2[j]);
      hide LaidOut, Settled, OnlyLinks;
      forall i | 0 <= i < |cs2|
        ensures Settled(g, rows2, cs2[i], orders2[i], if i == j then live2 else live)
      {
        if i != j {
          OthersKept(g, rows, rows2, cs, cs2, size, j, i, orders[i], 0, 0, live);
        }
      }
    }

    /** The element inserted into container j is live for the others as well when
        its links there are null. */
    static lemma OneMoreEverywhere(g: Space, rows: seq<Row>, rows2: seq<Row>, cs: seq<Container>, cs2: seq<Container>, orders2: seq<seq<nat>>, size: nat, j: nat, at: nat, live: set<nat>)
      requires LaidOut(cs, size) && j < |cs| && |cs2| == |cs| == |orders2| && OnlyLinks(rows, rows2, cs[j])
      requires cs2 == cs[j := cs2[j]] && SameColumn(cs[j], cs2[j]) && at < |rows| == |rows2|
      requires forall i :: 0 <= i < |cs2| ==> Settled(g, rows2, cs2[i], orders2[i], if i == j then live + {at} else live)
      ensures at in live || (forall i :: 0 <= i < |cs| && i != j && cs[i].DList? ==> NullLinks(rows[at], cs[i]))
              ==> forall i :: 0 <= i < |cs2| ==> Settled(g, rows2, cs2[i], orders2[i], live + {at})
    {
      NullsMade(cs, size, j, rows[at], rows2[at]);
      hide LaidOut, Settled, OnlyLinks, NullLinks;
      forall i | 0 <= i < |cs2| && (at in live || (forall i :: 0 <= i < |cs| && i != j && cs[i].DList? ==> NullLinks(rows[at], cs[i])))
        ensures Settled(g, rows2, cs2[i], orders2[i], live + {at})
      {
        if at in live {
          assert live + {at} == live;
        } else if i != j {
          OneMoreLive(g, rows2, cs2[i], orders2[i], at, live);
        }
      }
    }

    /** Null links in every doubly linked list, for an element in none of them
        (jr_MakeNullDListElementWithPrefix). */
    method MakeNull(s: nat, ghost live: set<nat>)
      requires Reading(live) && s < buffer.Length && s !in live
      modifies buffer
      ensures Reading(live + {s})
      ensures forall x :: 0 <= x < buffer.Length && x != s ==> buffer[x] == old(buffer[x])
      ensures SameData(containers, old(buffer[s]), buffer[s])
    {
      hide Settled, SameData, LaidOut, OnlyLinks, NullLinks, Apart;
      ghost var was := buffer[s];
      SameDataItself(containers);
      for j := 0 to |containers|
        invariant Reading(live) && |containers| == |old(containers)|
        invariant forall i :: 0 <= i < j && containers[i].DList? ==> NullLinks(buffer[s], containers[i])
        invariant forall x :: 0 <= x < buffer.Length && x != s ==> buffer[x] == old(buffer[x])
        invariant SameData(containers, was, buffer[s])
      {
        if containers[j].DList? {
          ghost var rows, row := buffer[..], buffer[s];
          var k := containers[j].column;
          ColumnsFit(containers, objsize, j);
          buffer[s] := buffer[s][k + 1 := 0];
          buffer[s] := buffer[s][k := 0];
          OnlyRow(rows, buffer[..], containers[j], s);
          NullsMade(containers, objsize, j, row, buffer[s]);
          DataSeen(containers, was, row, buffer[s], j);
          forall i | 0 <= i < |containers|
            ensures Settled(G(), buffer[..], containers[i], orders[i], live)
          {
            RowOutside(G(), rows, buffer[..], containers[i], orders[i], s, live);
          }
        }
      }
      forall j | 0 <= j < |containers|
        ensures Settled(G(), buffer[..], containers[j], orders[j], live + {s})
      {
        OneMoreLive(G(), buffer[..], containers[j], orders[j], s, live);
      }
    }

    static lemma OnlyRow(rows: seq<Row>, rows2: seq<Row>, c: Container, s: nat)
      requires c.DList? && s < |rows| && |rows[s]| >= c.column + 2
      requires rows2 == rows[s := rows[s][c.column + 1 := 0][c.column := 0]]
      ensures OnlyLinks(rows, rows2, c) && SameBut(rows[s], rows2[s], c) && NullLinks(rows2[s], c)
    {
    }

    static lemma NullsMade(cs: seq<Container>, size: nat, j: nat, row: Row, row2: Row)
      requires LaidOut(cs, size) && j < |cs| && SameBut(row, row2, cs[j])
      ensures forall i :: 0 <= i < |cs| && i != j && cs[i].DList? && NullLinks(row, cs[i]) ==> NullLinks(row2, cs[i])
    {
      forall i | 0 <= i < |cs| && i != j && cs[i].DList? && NullLinks(row, cs[i])
        ensures NullLinks(row2, cs[i])
      {
        assert Apart(cs[i], cs[j]);
      }
    }

    /** A row that is not live is of no account. */
    static lemma RowOutside(g: Space, rows: seq<Row>, rows2: seq<Row>, c: Container, order: seq<nat>, s: nat, live: set<nat>)
      requires Settled(g, rows, c, order, live) && s !in live && |rows2| == |rows|
      requires forall x :: 0 <= x < |rows| && x != s ==> rows2[x] == rows[x]
      ensures Settled(g, rows2, c, order, live)
    {
      forall p | 0 <= p < |order|
        ensures order[p] < |rows2| && Linked(g, rows2[order[p]], c, order, p)
      {
        assert order[p] in live && Linked(g, rows[order[p]], c, order, p);
      }
      if c.DList? {
        forall x | x in live && x !in order
          ensures x < |rows2| && NullLinks(rows2[x], c)
        {
          assert NullLinks(rows[x], c);
        }
      }
    }

    static lemma OneMoreLive(g: Space, rows: seq<Row>, c: Container, order: seq<nat>, s: nat, live: set<nat>)
      requires Settled(g, rows, c, order, live) && s < |rows| && (c.DList? ==> NullLinks(rows[s], c))
      ensures Settled(g, rows, c, order, live + {s})
    {
    }

    /** jr_AListSetContainers on an empty list: the link fields take the front of
        every element, in the order the containers are named. The source stops
        the program when no words are left for data. */
    constructor (kinds: seq<Kind>, dataWords: nat, newBase: int)
      requires dataWords > 0 && newBase > 0
      ensures Valid() && fresh(buffer) && buffer.Length == 0 == freeIndex && base == newBase
      ensures |containers| == |kinds| && forall j :: 0 <= j < |kinds| ==> containers[j].DList? == kinds[j].Doubly? && orders[j] == []
      ensures forall j :: 0 <= j < |orders| ==> orders[j] == []
      ensures objsize >= dataWords && forall j :: 0 <= j < |containers| ==> containers[j].column + Width(containers[j]) <= objsize - dataWords
    {
      hide LaidOut, Settled;
      var sizes := WordsOf(kinds);
      var offsets, total := PrefixArrayCreate(sizes);
      base, objsize, freeIndex := newBase, total + dataWords, 0;
      containers := EmptyContainers(kinds, offsets, total);
      buffer := new Row[0];
      orders := seq(|kinds|, _ => []);
      AreasApart(kinds, offsets, total, total + dataWords);
      new;
      forall j | 0 <= j < |containers|
        ensures Settled(G(), buffer[..], containers[j], orders[j], Below(0))
      {
        NothingSettled(G(), buffer[..], containers[j]);
      }
    }

    static function WordsOf(kinds: seq<Kind>): (r: seq<nat>)
      ensures |r| == |kinds| && forall j :: 0 <= j < |kinds| ==> r[j] == Words(kinds[j])
    {
      seq(|kinds|, j requires 0 <= j < |kinds| => Words(kinds[j]))
    }

    /** Containers with the areas the offsets give them, all empty. */
    static function EmptyContainers(kinds: seq<Kind>, offsets: seq<nat>, total: nat): (r: seq<Container>)
      requires |offsets| == |kinds| && forall j :: 0 <= j < |kinds| ==> offsets[j] + Words(kinds[j]) <= total
      ensures |r| == |kinds|
      ensures forall j :: 0 <= j < |kinds| ==>
        r[j].column == total - offsets[j] - Words(kinds[j]) && r[j].DList? == kinds[j].Doubly? && r[j].head == 0 == r[j].tail
    {
      seq(|kinds|, j requires 0 <= j < |kinds| == |offsets| && offsets[j] + Words(kinds[j]) <= total =>
        if kinds[j].Doubly? then DList(total - offsets[j] - 2, 0, 0) else LList(total - offsets[j] - 1, 0, 0))
    }

    static lemma AreasApart(kinds: seq<Kind>, offsets: seq<nat>, total: nat, size: nat)
      requires |offsets| == |kinds| && total <= size
      requires forall j :: 0 <= j < |kinds| ==> offsets[j] + Words(kinds[j]) <= total
      requires forall i, j :: 0 <= i < j < |kinds| ==> offsets[j] + Words(kinds[j]) <= offsets[i]
      ensures LaidOut(EmptyContainers(kinds, offsets, total), size)
    {
      var cs := EmptyContainers(kinds, offsets, total);
      forall i, j | 0 <= i < |cs| && 0 <= j < |cs| && i != j
        ensures Apart(cs[i], cs[j])
      {
        if i < j {
          assert offsets[j] + Words(kinds[j]) <= offsets[i];
        } else {
          assert offsets[i] + Words(kinds[i]) <= offsets[j];
        }
      }
    }

    static lemma NothingSettled(g: Space, rows: seq<Row>, c: Container)
      requires c.head == 0 && c.tail == 0
      ensures Settled(g, rows, c, [], Below(0))
    {
    }
  }
}
