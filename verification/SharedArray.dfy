/** A growable array whose elements are linked into lists and into a tree at once:
    moves and growth repair all of them. */
module SharedArray {
  import opened Sequences
  import opened Relinking
  import opened DListLinks
  import opened RelocationSteps
  import opened Relocation
  import opened PrefixLayout
  import AvlShape
  import AvlMemory
  import AvlExtract
  import AvlTree
  import Trees = AvlRelocation

  const TREE_WORDS: nat := 4

  /** The words of a tree's element: children, height and size. */
  function WithCell(row: Row, k: nat, c: AvlMemory.Cell): (r: Row)
    requires k + TREE_WORDS <= |row|
    ensures HasCell(r, k, c) && |r| == |row| && forall i :: 0 <= i < |row| && !(k <= i < k + TREE_WORDS) ==> r[i] == row[i]
  {
    row[k := c.left][k + 1 := c.right][k + 2 := c.height][k + 3 := c.size]
  }

  ghost predicate HasCell(row: Row, k: nat, c: AvlMemory.Cell) {
    && k + TREE_WORDS <= |row|
    && row[k] == c.left && row[k + 1] == c.right && row[k + 2] == c.height && row[k + 3] == c.size
  }

  /** Words that are neither links of a list nor the tree's are the same. */
  ghost predicate SameUserData(cs: seq<Container>, k: nat, row: Row, row2: Row) {
    |row2| == |row| && forall i :: 0 <= i < |row| && IsData(cs, i) && !(k <= i < k + TREE_WORDS) ==> row2[i] == row[i]
  }

  /** The tree's words and the word with the key lie outside the lists' links. */
  ghost predicate TreeLaidOut(cs: seq<Container>, size: nat, k: nat, keyWord: nat) {
    && k + TREE_WORDS <= size && keyWord < size && !(k <= keyWord < k + TREE_WORDS)
    && forall j :: 0 <= j < |cs| ==> OutsideLinks(cs[j], k, keyWord)
  }

  ghost predicate OutsideLinks(c: Container, k: nat, keyWord: nat) {
    && (c.column + Width(c) <= k || k + TREE_WORDS <= c.column)
    && !(c.column <= keyWord < c.column + Width(c))
  }

  lemma TreeStaysLaidOut(cs: seq<Container>, cs2: seq<Container>, size: nat, k: nat, keyWord: nat)
    requires TreeLaidOut(cs, size, k, keyWord) && SameLayout(cs, cs2)
    ensures TreeLaidOut(cs2, size, k, keyWord)
  {
    forall j | 0 <= j < |cs2|
      ensures OutsideLinks(cs2[j], k, keyWord)
    {
      assert SameColumn(cs[j], cs2[j]) && OutsideLinks(cs[j], k, keyWord);
    }
  }

  /** For the lists the tree's words and the key are data. */
  lemma TreeWordsAreData(cs: seq<Container>, size: nat, k: nat, keyWord: nat)
    requires TreeLaidOut(cs, size, k, keyWord)
    ensures IsData(cs, keyWord) && forall i :: k <= i < k + TREE_WORDS ==> IsData(cs, i)
  {
    forall j | 0 <= j < |cs|
      ensures OutsideLinks(cs[j], k, keyWord)
    {
    }
  }

  /** Writing the tree's words is nothing to a list. */
  lemma ListUntouched(g: Space, rows: seq<Row>, rows2: seq<Row>, c: Container, order: seq<nat>, live: set<nat>, k: nat, keyWord: nat)
    requires Settled(g, rows, c, order, live) && OutsideLinks(c, k, keyWord) && |rows2| == |rows|
    requires forall x :: 0 <= x < |rows| ==> OnlyTreeWords(rows[x], rows2[x], k)
    ensures Settled(g, rows2, c, order, live)
  {
    forall p | 0 <= p < |order|
      ensures order[p] < |rows2| && Linked(g, rows2[order[p]], c, order, p)
    {
      assert Linked(g, rows[order[p]], c, order, p) && OnlyTreeWords(rows[order[p]], rows2[order[p]], k);
    }
    if c.DList? {
      forall x | x in live && x !in order
        ensures x < |rows2| && NullLinks(rows2[x], c)
      {
        assert NullLinks(rows[x], c) && OnlyTreeWords(rows[x], rows2[x], k);
      }
    }
  }

  lemma ReadsUntouched(g: Space, rows: seq<Row>, rows2: seq<Row>, c: Container, order: seq<nat>, k: nat, keyWord: nat)
    requires Reads(g, rows, c, order) && OutsideLinks(c, k, keyWord) && |rows2| == |rows|
    requires forall x :: 0 <= x < |rows| ==> OnlyTreeWords(rows2[x], rows[x], k)
    ensures Reads(g, rows2, c, order)
  {
    forall p | 0 <= p < |order|
      ensures order[p] < |rows2| && Linked(g, rows2[order[p]], c, order, p)
    {
      assert Linked(g, rows[order[p]], c, order, p) && OnlyTreeWords(rows2[order[p]], rows[order[p]], k);
    }
  }

  ghost predicate OnlyTreeWords(row: Row, row2: Row, k: nat) {
    |row2| == |row| && forall i :: 0 <= i < |row| && !(k <= i < k + TREE_WORDS) ==> row2[i] == row[i]
  }

  // ----- what changes -----

  /** Lists, rows, the slots of each list, the tree and its keys. */
  datatype View = View(cs: seq<Container>, rows: seq<Row>, orders: seq<seq<nat>>, tree: AvlShape.Tree, key: AvlShape.Ptr -> int)

  /** The element of slot src is now that of slot to, for the lists, for the tree
      and for the user. */
  ghost predicate ElementMoved(g: Space, k: nat, src: nat, to: nat, v: View, w: View)
    requires g.base > 0 && g.step > 0
  {
    && SameLayout(v.cs, w.cs) && w.orders == MovedAll(v.orders, src, to)
    && w.tree == Trees.MapTree(v.tree, Trees.Renaming(Trees.At(g, src), Trees.At(g, to)))
    && w.key == Trees.Rekeyed(v.key, Trees.At(g, src), Trees.At(g, to))
    && |w.rows| == |v.rows| && src < |v.rows| && to < |v.rows|
    && forall x :: 0 <= x < |v.rows| ==> SameUserData(v.cs, k, v.rows[if x == to then src else x], w.rows[x])
  }

  /** Of n elements those from slot i on are one slot higher. */
  ghost predicate ShiftedUp(g: Space, k: nat, n: nat, i: nat, v: View, w: View)
    requires g.base > 0 && g.step > 0
  {
    && SameLayout(v.cs, w.cs) && w.orders == Raised(v.orders, i)
    && w.tree == Trees.MapTree(v.tree, Trees.RaisedFrom(g, i))
    && Trees.KeysKept(AvlShape.InOrder(v.tree), v.key, w.key, Trees.RaisedFrom(g, i))
    && n < |w.rows| == |v.rows|
    && (forall x :: 0 <= x < i ==> x < n ==> SameUserData(v.cs, k, v.rows[x], w.rows[x]))
    && (forall x :: i <= x < n ==> SameUserData(v.cs, k, v.rows[x], w.rows[x + 1]))
  }

  /** Those from slot e on and below slot m are d slots lower. */
  ghost predicate ShiftedDown(g: Space, k: nat, i: nat, d: nat, m: nat, n: nat, v: View, w: View)
    requires g.base > 0 && g.step > 0
  {
    var e := i + d;
    && SameLayout(v.cs, w.cs) && w.orders == Lowered(v.orders, e, d, m)
    && w.tree == Trees.MapTree(v.tree, Trees.LoweredFrom(g, e, d, m))
    && Trees.KeysKept(AvlShape.InOrder(v.tree), v.key, w.key, Trees.LoweredFrom(g, e, d, m))
    && n <= |w.rows| == |v.rows|
    && (forall x :: 0 <= x < i || m <= x < n ==> x < n ==> SameUserData(v.cs, k, v.rows[x], w.rows[x]))
    && (forall x :: e <= x < m ==> x < n ==> SameUserData(v.cs, k, v.rows[x], w.rows[x - d]))
  }

  lemma ShiftMoreUp(g: Space, k: nat, n: nat, c: nat, v: View, w: View, w2: View)
    requires g.base > 0 && g.step > 0 && 0 < c <= n && Trees.AllSlots(g, Below(n), AvlShape.InOrder(v.tree))
    requires ShiftedUp(g, k, n, c, v, w) && ElementMoved(g, k, c - 1, c, w, w2)
    ensures ShiftedUp(g, k, n, c - 1, v, w2)
  {
    hide SameLayout, Raised, MovedAll, Trees.MapTree, Trees.RaisedFrom, Trees.KeysKept, SameUserData, AvlShape.InOrder, Trees.At, Trees.AllSlots;
    RaiseOne(v.orders, c);
    Trees.RaiseSteps(v.tree, AvlShape.InOrder(v.tree), g, c, Below(n), v.key, w.key);
    UserDataMoves(v.cs, w.cs, k, v.rows, w.rows, w2.rows);
    AList.LayoutJoined(v.cs, w.cs, w2.cs);
  }

  lemma ShiftMoreDown(g: Space, k: nat, i: nat, d: nat, m: nat, n: nat, v: View, w: View, w2: View)
    requires g.base > 0 && g.step > 0 && d > 0 && i + d <= m < n
    requires Trees.AllSlots(g, Kept(d, n, i + d), AvlShape.InOrder(v.tree))
    requires forall j, p :: 0 <= j < |v.orders| && 0 <= p < |v.orders[j]| ==> !(i <= v.orders[j][p] < i + d)
    requires ShiftedDown(g, k, i, d, m, n, v, w) && ElementMoved(g, k, m, m - d, w, w2)
    ensures ShiftedDown(g, k, i, d, m + 1, n, v, w2)
  {
    hide SameLayout, Lowered, MovedAll, Trees.MapTree, Trees.LoweredFrom, Trees.KeysKept, SameUserData, AvlShape.InOrder, Trees.At, Trees.AllSlots, Kept;
    LowerOne(v.orders, i + d, d, m);
    Trees.KeptSlots(i, d, n, Kept(d, n, i + d));
    Trees.LowerSteps(v.tree, AvlShape.InOrder(v.tree), g, i + d, d, m, Kept(d, n, i + d), v.key, w.key);
    UserDataMoves(v.cs, w.cs, k, v.rows, w.rows, w2.rows);
    AList.LayoutJoined(v.cs, w.cs, w2.cs);
  }

  class LinkedArray {
    const lists: AList
    const tree: AvlTree.TreeObject
    const column: nat
    const keyWord: nat

    /** An empty array whose elements have the links of the lists, the words of the
        tree, and the words of the user, one of which is the key. */
    constructor (kinds: seq<Kind>, dataWords: nat, keyAt: nat, newBase: int)
      requires keyAt < dataWords && newBase > 0
      ensures Sound({}) && lists.Valid() && lists.freeIndex == 0 && tree.tree == AvlShape.Leaf && fresh(lists) && fresh(tree) && fresh(lists.buffer)
      ensures forall j :: 0 <= j < |lists.orders| ==> lists.orders[j] == []
    {
      var l := new AList(kinds, TREE_WORDS + dataWords, newBase);
      lists := l;
      tree := new AvlTree.TreeObject(map[], (_: AvlShape.Ptr) => 0);
      column, keyWord := l.objsize - dataWords - TREE_WORDS, l.objsize - dataWords + keyAt;
      new;
      assert Below(0) == {};
    }

    /** Every list reads as its slots, the tree is there, valid and sorted, and its
        cells and keys are the words of the live elements. */
    ghost predicate Sound(live: set<nat>)
      reads this, lists, lists.buffer, tree
    {
      && lists.Reading(live) && TreeLaidOut(lists.containers, lists.objsize, column, keyWord)
      && Trees.Holds(tree, lists.G(), live)
      && (forall s: nat :: s < lists.buffer.Length ==> Trees.At(lists.G(), s) in tree.mem)
      && (forall s :: s in live ==> s < lists.buffer.Length && WordsMatch(s))
    }

    /** The tree's view of slot s is what the array holds there. */
    ghost predicate WordsMatch(s: nat)
      requires lists.base > 0 && lists.objsize > 0 && s < lists.buffer.Length
      reads this, lists, lists.buffer, tree
    {
      RowMatches(lists.buffer[s], s)
    }

    /** The row of slot s shows what the tree knows of it. */
    ghost predicate RowMatches(row: Row, s: nat)
      requires lists.base > 0 && lists.objsize > 0
      reads this, lists, tree
    {
      var x := Trees.At(lists.G(), s);
      && x in tree.mem && HasCell(row, column, tree.mem[x])
      && keyWord < |row| && tree.key(x) == row[keyWord]
    }

    ghost function Look(): View
      reads lists, lists.buffer, tree
    {
      View(lists.containers, lists.buffer[..], lists.orders, tree.tree, tree.key)
    }

    /** What the tree's repair has written goes to the words of the array. */
    method Store()
      requires lists.Shape() && TreeLaidOut(lists.containers, lists.objsize, column, keyWord)
      requires forall s: nat :: s < lists.buffer.Length ==> Trees.At(lists.G(), s) in tree.mem
      modifies lists.buffer
      ensures lists.Shape()
      ensures forall s :: 0 <= s < lists.buffer.Length ==>
        && OnlyTreeWords(old(lists.buffer[s]), lists.buffer[s], column)
        && HasCell(lists.buffer[s], column, tree.mem[Trees.At(lists.G(), s)])
    {
      hide Trees.At, LaidOut;
      for s := 0 to lists.buffer.Length
        invariant lists.Shape()
        invariant forall x :: s <= x < lists.buffer.Length ==> lists.buffer[x] == old(lists.buffer[x])
        invariant forall x :: 0 <= x < s ==>
          && OnlyTreeWords(old(lists.buffer[x]), lists.buffer[x], column)
          && HasCell(lists.buffer[x], column, tree.mem[Trees.At(lists.G(), x)])
      {
        lists.buffer[s] := WithCell(lists.buffer[s], column, tree.mem[Trees.At(Space(lists.base, lists.objsize), s)]);
      }
    }

    /** The body of the shifting loops: an element's words are copied, then every
        list and the tree repair their pointers. */
    method MoveElement(src: nat, to: nat, magnitude: int, whichWay: int, ghost live: set<nat>)
      requires Sound(live) && src in live && to !in live && to < lists.buffer.Length
      requires whichWay == 1 || whichWay == -1
      requires TransformPtr(Addr(lists.G(), to), magnitude, -whichWay) == Addr(lists.G(), src)
      modifies lists`containers, lists`orders, lists.buffer, tree
      ensures Sound(live - {src} + {to})
      ensures ElementMoved(lists.G(), column, src, to, old(Look()), Look())
    {
      hide Addr, Settled, SameData, LaidOut, SameLayout, TreeLaidOut, AvlShape.InOrder, AvlMemory.Rep, Trees.MapTree, Trees.Holds, Trees.At;
      hide OnlyTreeWords, HasCell, SameUserData, Trees.Rekeyed, Trees.Renaming;
      ghost var g, cs, rows, key := lists.G(), lists.containers, lists.buffer[..], tree.key;
      lists.MoveElement(src, to, magnitude, whichWay, live);
      Trees.MoveElement(tree, Space(lists.base, lists.objsize), src, to, magnitude, whichWay, live);
      TreeStaysLaidOut(cs, lists.containers, lists.objsize, column, keyWord);
      ghost var rows1, live2 := lists.buffer[..], live - {src} + {to};
      Store();
      forall x | 0 <= x < lists.buffer.Length
        ensures SameUserData(cs, column, rows[if x == to then src else x], lists.buffer[x])
        ensures lists.buffer[x][keyWord] == rows[if x == to then src else x][keyWord]
      {
        UserDataKept(cs, lists.objsize, column, keyWord, rows[if x == to then src else x], rows1[x], lists.buffer[x]);
      }
      forall s | s in live2
        ensures tree.key(Trees.At(lists.G(), s)) == lists.buffer[s][keyWord]
      {
        RekeyedAt(g, key, src, to, s);
      }
      StoredSound(rows1, live2);
    }

    /** The shifting loop of jr_AListNewPrevElementPtr. */
    method ShiftUp(i: nat)
      requires Sound(Below(lists.freeIndex)) && i <= lists.freeIndex < lists.buffer.Length
      modifies lists`containers, lists`orders, lists.buffer, tree
      ensures Sound(Below(lists.freeIndex + 1) - {i})
      ensures ShiftedUp(lists.G(), column, lists.freeIndex, i, old(Look()), Look())
    {
      hide Sound, ShiftedUp, ElementMoved, Below, Addr, TransformPtr, Trees.AllSlots, AvlShape.InOrder;
      ghost var g, n, v := lists.G(), lists.freeIndex, Look();
      NothingUp(n);
      var curr := lists.freeIndex;
      while curr > i
        invariant i <= curr <= n == lists.freeIndex < lists.buffer.Length
        invariant Sound(Below(n + 1) - {curr}) && ShiftedUp(g, column, n, curr, v, Look())
      {
        ghost var w := Look();
        GapStep(n, curr);
        UpSlot(g, curr);
        MoveElement(curr - 1, curr, lists.objsize, 1, Below(n + 1) - {curr});
        ShiftMoreUp(g, column, n, curr, v, w, Look());
        curr := curr - 1;
      }
    }

    lemma SoundParts(live: set<nat>)
      requires Sound(live)
      ensures lists.base > 0 && lists.objsize > 0 && lists.Reading(live) && Trees.Holds(tree, lists.G(), live)
    {
      hide Trees.Holds, Settled, WordsMatch, TreeLaidOut;
    }

    lemma NothingUp(n: nat)
      requires Sound(Below(n)) && n < lists.buffer.Length
      ensures lists.base > 0 && lists.objsize > 0
      ensures Sound(Below(n + 1) - {n}) && ShiftedUp(lists.G(), column, n, n, Look(), Look())
      ensures Trees.AllSlots(lists.G(), Below(n), AvlShape.InOrder(tree.tree))
    {
      hide Sound, Trees.Holds, Settled, Raised, SameUserData, SameLayout, Trees.MapTree, Trees.KeysKept, AvlShape.InOrder, Trees.RaisedFrom, Below, LaidOut;
      SoundParts(Below(n));
      SameLayoutItself(lists.containers);
      SameUserDataItself(lists.containers, column);
      lists.SlotsWithin(n);
      RaiseNone(lists.orders, n);
      Trees.NothingShifted(tree, lists.G(), n);
    }

    /** The shifting loop of jr_AListDeleteRangeFromPtr. */
    method ShiftDown(i: nat, k: nat)
      requires k > 0 && i + k <= lists.freeIndex <= lists.buffer.Length && Sound(Kept(k, lists.freeIndex, i + k))
      requires forall j, p :: 0 <= j < |lists.orders| && 0 <= p < |lists.orders[j]| ==> !(i <= lists.orders[j][p] < i + k)
      modifies lists`containers, lists`orders, lists.buffer, tree
      ensures Sound(Below(lists.freeIndex - k))
      ensures ShiftedDown(lists.G(), column, i, k, lists.freeIndex, lists.freeIndex, old(Look()), Look())
    {
      hide Sound, ShiftedDown, ElementMoved, Below, Addr, Kept, TransformPtr, Trees.AllSlots, AvlShape.InOrder;
      ghost var g, n, v := lists.G(), lists.freeIndex, Look();
      NothingDown(i, k, n);
      var m := i + k;
      while m < lists.freeIndex
        invariant i + k <= m <= n == lists.freeIndex <= lists.buffer.Length
        invariant Sound(Kept(k, n, m)) && ShiftedDown(g, column, i, k, m, n, v, Look())
      {
        ghost var w := Look();
        DownSlot(g, m, k);
        KeptStep(k, n, m);
        MoveElement(m, m - k, k * lists.objsize, -1, Kept(k, n, m));
        ShiftMoreDown(g, column, i, k, m, n, v, w, Look());
        m := m + 1;
      }
      ClosedLive(k, n);
    }

    lemma NothingDown(i: nat, k: nat, n: nat)
      requires k > 0 && i + k <= n <= lists.buffer.Length && Sound(Kept(k, n, i + k))
      ensures lists.base > 0 && lists.objsize > 0
      ensures ShiftedDown(lists.G(), column, i, k, i + k, n, Look(), Look())
      ensures Trees.AllSlots(lists.G(), Kept(k, n, i + k), AvlShape.InOrder(tree.tree))
    {
      hide Sound, Trees.Holds, Settled, Kept, Lowered, SameUserData, SameLayout, Trees.MapTree, Trees.KeysKept, AvlShape.InOrder, Trees.LoweredFrom, LaidOut;
      SoundParts(Kept(k, n, i + k));
      SameLayoutItself(lists.containers);
      SameUserDataItself(lists.containers, column);
      LowerNone(lists.orders, i + k, k);
      Trees.NothingLowered(tree, lists.G(), i + k, k, Kept(k, n, i + k));
    }

    /** Whether the buffer may move by d: no end of a list and no root is overtaken. */
    ghost predicate NothingOvertaken(d: int)
      requires lists.base > 0 && lists.objsize > 0
      reads this, lists, tree
    {
      && (forall j :: 0 <= j < |lists.orders| ==> EndsRight(lists.G(), d, lists.orders[j], lists.freeIndex))
      && !Trees.RootOvertaken(lists.G(), d, tree.tree, lists.freeIndex)
    }

    /** jr_AListIncreaseCapacity: the lists and the tree survive the growth if and
        only if nothing is overtaken. The passes touch different words of an
        element, so that their order is of no account. */
    method IncreaseCapacity(newSize: int, newBase: int, extra: nat)
      requires Sound(Below(lists.freeIndex)) && newBase > 0
      modifies lists`base, lists`buffer, lists`containers, tree
      ensures lists.base > 0 && lists.objsize > 0
      ensures newSize <= old(lists.buffer.Length) ==>
        lists.buffer == old(lists.buffer) && lists.base == old(lists.base) && Look() == old(Look()) && Sound(Below(lists.freeIndex))
      ensures newSize > old(lists.buffer.Length) ==>
        && fresh(lists.buffer) && lists.base == newBase && lists.buffer.Length >= newSize
        && (Sound(Below(lists.freeIndex)) <==> old(NothingOvertaken(newBase - lists.base)))
        && tree.tree == Trees.MapTree(old(tree.tree), Trees.ShiftBy(newBase - old(lists.base)))
        && tree.key == Trees.KeyBefore(old(tree.key), newBase - old(lists.base))
      ensures SameLayout(old(lists.containers), lists.containers) && lists.freeIndex <= lists.buffer.Length
      ensures forall x :: 0 <= x < lists.freeIndex ==>
        SameUserData(old(lists.containers), column, old(lists.buffer[x]), lists.buffer[x])
    {
      hide Sound, Settled, LaidOut, NothingOvertaken, Trees.Holds, Trees.MapTree, TreeLaidOut, SameUserData, SameLayout, Below;
      SoundParts(Below(lists.freeIndex));
      SameLayoutItself(lists.containers);
      SameUserDataItself(lists.containers, column);
      if newSize > lists.buffer.Length {
        Grow(newSize, newBase, extra);
      }
    }

    /** The same when the buffer does have to grow. */
    method Grow(newSize: int, newBase: int, extra: nat)
      requires Sound(Below(lists.freeIndex)) && newBase > 0 && newSize > lists.buffer.Length
      modifies lists`base, lists`buffer, lists`containers, tree
      ensures lists.objsize > 0 && lists.base == newBase && fresh(lists.buffer) && lists.buffer.Length >= newSize
      ensures Sound(Below(lists.freeIndex)) <==> old(NothingOvertaken(newBase - lists.base))
      ensures tree.tree == Trees.MapTree(old(tree.tree), Trees.ShiftBy(newBase - old(lists.base)))
      ensures tree.key == Trees.KeyBefore(old(tree.key), newBase - old(lists.base))
      ensures SameLayout(old(lists.containers), lists.containers) && lists.freeIndex <= lists.buffer.Length
      ensures forall x :: 0 <= x < lists.freeIndex ==>
        SameUserData(old(lists.containers), column, old(lists.buffer[x]), lists.buffer[x])
    {
      hide Sound, Settled, SameData, LaidOut, EndsRight, Trees.Holds, Trees.At, Trees.MapTree, Trees.RootOvertaken, TreeLaidOut,
        OnlyTreeWords, HasCell, SameUserData, SameLayout, AvlShape.InOrder, Below, WordsMatch, Reads, Trees.KeyBefore, Trees.ShiftBy;
      ghost var n, g, d, cs, rows, key := lists.freeIndex, lists.G(), newBase - lists.base, lists.containers, lists.buffer[..], tree.key;
      SoundParts(Below(n));
      SoundLayout(Below(n));
      SoundKeysIn(Below(n));
      SlotsBelow(n);
      var oldBase := lists.base;
      ghost var ends := GrowLists(newSize, newBase, extra);
      ghost var rows1 := lists.buffer[..];
      Trees.MoveAll(tree, Space(oldBase, lists.objsize), newBase - oldBase, lists.freeIndex, lists.buffer.Length);
      Store();
      GrownWords(g, d, n, cs, rows, rows1, lists.buffer[..], column, keyWord, key, tree.key);
      GrownSound(rows1, n, ends);
    }

    /** The lists' part of it: ends says whether no end of a list is overtaken. */
    method GrowLists(newSize: int, newBase: int, extra: nat) returns (ghost ends: bool)
      requires lists.Valid() && newBase > 0 && newSize > lists.buffer.Length
      requires TreeLaidOut(lists.containers, lists.objsize, column, keyWord)
      modifies lists`base, lists`buffer, lists`containers
      ensures lists.Shape() && fresh(lists.buffer) && lists.base == newBase && lists.buffer.Length >= newSize
      ensures TreeLaidOut(lists.containers, lists.objsize, column, keyWord) && SameLayout(old(lists.containers), lists.containers)
      ensures forall x :: 0 <= x < lists.freeIndex ==> SameData(old(lists.containers), old(lists.buffer[x]), lists.buffer[x])
      ensures ends <==> forall j :: 0 <= j < |lists.orders| ==> EndsRight(old(lists.G()), newBase - old(lists.base), lists.orders[j], lists.freeIndex)
      ensures ends <==> forall j :: 0 <= j < |lists.containers| ==> Reads(lists.G(), lists.buffer[..], lists.containers[j], lists.orders[j])
      ensures ends ==> forall j :: 0 <= j < |lists.containers| ==>
        Settled(lists.G(), lists.buffer[..], lists.containers[j], lists.orders[j], Below(lists.freeIndex))
    {
      hide Settled, SameData, LaidOut, EndsRight, TreeLaidOut, SameLayout, Below, Reads;
      ghost var g, d, cs := lists.G(), newBase - lists.base, lists.containers;
      lists.IncreaseCapacity(newSize, newBase, extra);
      ends := forall j :: 0 <= j < |lists.orders| ==> EndsRight(g, d, lists.orders[j], lists.freeIndex);
      TreeStaysLaidOut(cs, lists.containers, lists.objsize, column, keyWord);
    }

    lemma GrownSound(rows: seq<Row>, n: nat, ends: bool)
      requires lists.Shape() && n == lists.freeIndex <= lists.buffer.Length == |rows|
      requires TreeLaidOut(lists.containers, lists.objsize, column, keyWord) && keyWord < lists.objsize
      requires forall s: nat :: s < lists.buffer.Length ==> Trees.At(lists.G(), s) in tree.mem
      requires forall x :: 0 <= x < |rows| ==> OnlyTreeWords(rows[x], lists.buffer[x], column)
      requires forall x :: 0 <= x < |rows| ==> HasCell(lists.buffer[x], column, tree.mem[Trees.At(lists.G(), x)])
      requires forall x :: 0 <= x < n ==> tree.key(Trees.At(lists.G(), x)) == lists.buffer[x][keyWord]
      requires ends <==> forall j :: 0 <= j < |lists.containers| ==> Reads(lists.G(), rows, lists.containers[j], lists.orders[j])
      requires ends ==> forall j :: 0 <= j < |lists.containers| ==> Settled(lists.G(), rows, lists.containers[j], lists.orders[j], Below(n))
      ensures Sound(Below(n)) <==> ends && Trees.Holds(tree, lists.G(), Below(n))
    {
      hide Trees.Holds, LaidOut, TreeLaidOut, OnlyTreeWords, HasCell, Reads, NullElsewhere, Within, Trees.At;
      if ends {
        if Trees.Holds(tree, lists.G(), Below(n)) {
          StoredSound(rows, Below(n));
        }
      } else if lists.Reading(Below(n)) {
        forall j | 0 <= j < |lists.containers|
          ensures Reads(lists.G(), rows, lists.containers[j], lists.orders[j])
        {
          LinksOutside(lists.containers, lists.objsize, column, keyWord, j);
          ReadsUntouched(lists.G(), lists.buffer[..], rows, lists.containers[j], lists.orders[j], column, keyWord);
        }
        assert false;
      }
    }

    /** jr_AListNewPrevElementPtr. */
    method NewPrevElement(i: nat, newBase: int, extra: nat)
      requires Sound(Below(lists.freeIndex)) && newBase > 0 && i <= lists.freeIndex <= lists.buffer.Length
      requires lists.base > 0 && lists.objsize > 0
      requires lists.freeIndex == lists.buffer.Length ==> NothingOvertaken(newBase - lists.base)
      modifies lists, lists.buffer, tree
      ensures lists.base > 0 && lists.freeIndex == old(lists.freeIndex) + 1 && Sound(Below(lists.freeIndex) - {i})
      ensures lists.orders == Raised(old(lists.orders), i)
      ensures tree.tree == Trees.MapTree(
        if old(lists.freeIndex) == old(lists.buffer.Length) then Trees.MapTree(old(tree.tree), Trees.ShiftBy(newBase - old(lists.base)))
        else old(tree.tree), Trees.RaisedFrom(lists.G(), i))
      ensures forall x :: 0 <= x < i ==> SameUserData(old(lists.containers), column, old(lists.buffer[x]), lists.buffer[x])
      ensures forall x :: i <= x < old(lists.freeIndex) ==> SameUserData(old(lists.containers), column, old(lists.buffer[x]), lists.buffer[x + 1])
    {
      hide Sound, NothingOvertaken, Below, Raised, SameUserData, SameLayout, Trees.MapTree, Trees.ShiftBy, Trees.RaisedFrom, Trees.KeysKept, AvlShape.InOrder;
      ghost var cs, rows := lists.containers, lists.buffer[..];
      SameLayoutItself(cs);
      SameUserDataItself(cs, column);
      if lists.freeIndex == lists.buffer.Length {
        IncreaseCapacity(lists.freeIndex + 1, newBase, extra);
      }
      ghost var cs2, was := lists.containers, lists.buffer[..];
      ShiftUp(i);
      UserDataMoves(cs, cs2, column, rows, was, lists.buffer[..]);
      CountUp(i);
    }

    /** The count of elements grows. */
    method CountUp(ghost i: nat)
      requires Sound(Below(lists.freeIndex + 1) - {i}) && lists.freeIndex < lists.buffer.Length
      modifies lists`freeIndex
      ensures lists.freeIndex == old(lists.freeIndex) + 1 && Sound(Below(lists.freeIndex) - {i})
    {
      hide Below, Settled, Trees.Holds, Trees.At, TreeLaidOut, LaidOut, HasCell;
      lists.freeIndex := lists.freeIndex + 1;
    }

    /** jr_AListDeleteRangeFromPtr: k elements from slot i on; those taken away are
        in no list and not in the tree any more. */
    method DeleteRange(i: nat, k: int)
      requires Sound(Below(lists.freeIndex)) && i < lists.freeIndex <= lists.buffer.Length && k <= lists.freeIndex
      requires lists.base > 0 && lists.objsize > 0
      requires forall j, p :: 0 <= j < |lists.orders| && 0 <= p < |lists.orders[j]| ==>
        !(lists.FirstLost(i, k) <= lists.orders[j][p] < i + k)
      requires forall s: nat :: lists.FirstLost(i, k) <= s < i + k && s < lists.freeIndex ==> Trees.At(lists.G(), s) !in tree.Elements()
      modifies lists`containers, lists`orders, lists`freeIndex, lists.buffer, tree
      ensures lists.freeIndex == (if k > 0 then old(lists.freeIndex) - k else old(lists.freeIndex)) && Sound(Below(lists.freeIndex))
      ensures k <= 0 || i + k > old(lists.freeIndex) ==> Look() == old(Look())
      ensures k > 0 && i + k <= old(lists.freeIndex) ==>
        ShiftedDown(lists.G(), column, i, k, old(lists.freeIndex), old(lists.freeIndex), old(Look()), Look())
    {
      hide Sound, Below, Kept, Trees.At, ShiftedDown, AvlShape.InOrder;
      if k <= 0 {
        return;
      }
      ghost var n := lists.freeIndex;
      if i + k <= lists.freeIndex {
        ghost var live := KeptWithout(i, k, n);
        FewerSound(live, i, i + k);
        ShiftDown(i, k);
      } else {
        BelowWithout(k, n);
        FewerSound(Below(n - k), n - k, n);
      }
      CountDown(k);
    }

    method CountDown(k: nat)
      requires k <= lists.freeIndex && Sound(Below(lists.freeIndex - k))
      modifies lists`freeIndex
      ensures lists.freeIndex == old(lists.freeIndex) - k && Sound(Below(lists.freeIndex))
      ensures Look() == old(Look())
    {
      hide Below, Settled, Trees.Holds, Trees.At, TreeLaidOut, LaidOut, HasCell;
      lists.freeIndex := lists.freeIndex - k;
    }

    /** Elements that nothing leads to, from slot i on and below e, need not count as
        live. */
    lemma FewerSound(live: set<nat>, i: nat, e: nat)
      requires Sound(Below(lists.freeIndex)) && lists.base > 0 && lists.objsize > 0 && e <= lists.freeIndex
      requires forall s :: s in live <==> s in Below(lists.freeIndex) && !(i <= s < e)
      requires forall j, p :: 0 <= j < |lists.orders| && 0 <= p < |lists.orders[j]| ==> !(i <= lists.orders[j][p] < e)
      requires forall s: nat :: i <= s < e ==> Trees.At(lists.G(), s) !in tree.Elements()
      ensures Sound(live)
    {
      hide TreeLaidOut, LaidOut, HasCell, Trees.At, Settled, Trees.Holds, Below;
      forall j | 0 <= j < |lists.containers|
        ensures Settled(lists.G(), lists.buffer[..], lists.containers[j], lists.orders[j], live)
      {
        FewerSettled(lists.G(), lists.buffer[..], lists.containers[j], lists.orders[j], Below(lists.freeIndex), live, i, e);
      }
      FewerHeld(tree, lists.G(), Below(lists.freeIndex), live, i, e);
    }

    /** A new element with null links everywhere (jr_MakeNullDListElementWithPrefix,
        jr_AVL_TreeMakeNullElement) is live. */
    method MakeNull(s: nat, ghost live: set<nat>)
      requires Sound(live) && s < lists.buffer.Length && s !in live
      modifies lists.buffer, tree`mem, tree`key
      ensures Sound(live + {s})
      ensures forall x :: 0 <= x < lists.buffer.Length && x in live ==>
        SameUserData(lists.containers, column, old(lists.buffer[x]), lists.buffer[x])
      ensures SameUserData(lists.containers, column, old(lists.buffer[s]), lists.buffer[s])
    {
      hide Sound, SameData, SameUserData, SameLayout, TreeLaidOut, LaidOut, Settled, Trees.Holds, Trees.At, OnlyTreeWords, HasCell, Trees.WithKey;
      SoundParts(live);
      SoundLayout(live);
      SoundKeysIn(live);
      ghost var rows, key := lists.buffer[..], tree.key;
      SameDataItself(lists.containers);
      lists.MakeNull(s, live);
      ghost var rows1, live2 := lists.buffer[..], live + {s};
      var x := Trees.At(Space(lists.base, lists.objsize), s);
      Trees.MakeNullElement(tree, Space(lists.base, lists.objsize), s, lists.buffer[s][keyWord], live);
      Store();
      forall x | 0 <= x < lists.buffer.Length
        ensures SameUserData(lists.containers, column, rows[x], lists.buffer[x])
        ensures lists.buffer[x][keyWord] == rows[x][keyWord] == rows1[x][keyWord]
      {
        UserDataKept(lists.containers, lists.objsize, column, keyWord, rows[x], rows1[x], lists.buffer[x]);
      }
      forall y | y in live2
        ensures y < lists.buffer.Length && tree.key(Trees.At(lists.G(), y)) == lists.buffer[y][keyWord]
      {
        WithKeyAt(lists.G(), key, s, rows1[s][keyWord], y);
      }
      StoredSound(rows1, live2);
    }

    // ----- elements of the lists and of the tree -----

    /** jr_DListInsertElement, for a live element that is not in the list. */
    method InsertIntoList(j: nat, next: int, el: int, ghost p: nat, ghost at: nat, ghost live: set<nat>)
      requires Sound(live) && j < |lists.containers| && lists.containers[j].DList?
      requires at in live && at !in lists.orders[j] && el == Addr(lists.G(), at)
      requires p <= |lists.orders[j]| && next == PtrAt(lists.G(), lists.orders[j], p)
      modifies lists`containers, lists`orders, lists.buffer
      ensures Sound(live) && SameLayout(old(lists.containers), lists.containers)
      ensures lists.orders == old(lists.orders)[j := InsertedAt(old(lists.orders[j]), p, at)]
      ensures OnlyLinks(old(lists.buffer[..]), lists.buffer[..], old(lists.containers[j]))
    {
      hide Sound, Settled, Addr, PtrAt, InsertedAt, TreeLaidOut, LaidOut, OnlyLinks, SameLayout, Trees.Holds, Trees.At, HasCell, NullLinks;
      ghost var cs, rows := lists.containers, lists.buffer[..];
      SoundParts(live);
      SoundLayout(live);
      SoundWords(live);
      lists.DListInsertElement(j, next, el, p, at, live);
      assert live + {at} == live;
      ListChanged(cs, rows, j, live);
    }

    /** jr_DListExtractElement, for a live element, which stands at position p of the
        list, or in no place of it. */
    method ExtractFromList(j: nat, el: int, ghost p: nat, ghost at: nat, ghost live: set<nat>)
      requires Sound(live) && j < |lists.containers| && lists.containers[j].DList?
      requires at in live && el == Addr(lists.G(), at)
      requires at in lists.orders[j] ==> p < |lists.orders[j]| && lists.orders[j][p] == at
      modifies lists`containers, lists`orders, lists.buffer
      ensures Sound(live) && SameLayout(old(lists.containers), lists.containers)
      ensures at in old(lists.orders[j]) ==> lists.orders == old(lists.orders)[j := RemovedAt(old(lists.orders[j]), p)]
      ensures at !in old(lists.orders[j]) ==> Look() == old(Look())
      ensures OnlyLinks(old(lists.buffer[..]), lists.buffer[..], old(lists.containers[j]))
    {
      hide Sound, Settled, Addr, RemovedAt, TreeLaidOut, LaidOut, OnlyLinks, SameLayout, Trees.Holds, Trees.At, HasCell, NullLinks;
      ghost var cs, rows := lists.containers, lists.buffer[..];
      SoundParts(live);
      SoundLayout(live);
      SoundWords(live);
      lists.DListExtractElement(j, el, p, at, live);
      NoLinksChanged(rows, cs[j]);
      ListChanged(cs, rows, j, live);
    }

    /** jr_AVL_TreeInsertElementUsingKey, for a live element that is not in the tree;
        -1 when an element of the tree has its key. */
    method InsertIntoTree(at: nat, ghost live: set<nat>) returns (status: int, ghost before: seq<AvlShape.Ptr>, ghost after: seq<AvlShape.Ptr>)
      requires Sound(live) && at in live && lists.base > 0 && lists.objsize > 0
      requires Trees.At(lists.G(), at) !in tree.Elements()
      modifies lists.buffer, tree`root, tree`mem, tree`tree
      ensures Sound(live) && (status == 0 || status == -1)
      ensures status == -1 <==> exists x :: x in old(tree.Elements()) && tree.key(x) == tree.key(Trees.At(lists.G(), at))
      ensures status == -1 ==> tree.tree == old(tree.tree)
      ensures status == 0 ==> old(tree.Elements()) == before + after && tree.Elements() == before + [Trees.At(lists.G(), at)] + after
      ensures status == 0 && AvlShape.Avl(old(tree.tree)) ==> AvlShape.Avl(tree.tree)
      ensures forall x :: 0 <= x < lists.buffer.Length ==> OnlyTreeWords(old(lists.buffer[x]), lists.buffer[x], column)
    {
      hide Sound, Settled, TreeLaidOut, LaidOut, Trees.Holds, Trees.At, HasCell, OnlyTreeWords, AvlShape.InOrder, AvlMemory.Rep,
        AvlExtract.Sorted, AvlShape.Avl, AvlShape.Before, AvlShape.After;
      ghost var g, rows, was, elements := lists.G(), lists.buffer[..], tree.mem, tree.Elements();
      SoundParts(live);
      SoundLayout(live);
      SoundKeysIn(live);
      HeldParts(live);
      var x := Trees.At(Space(lists.base, lists.objsize), at);
      ghost var steps;
      status, steps := tree.InsertElementUsingKey(x, tree.key(x));
      before, after := AvlShape.Before(steps), AvlShape.After(steps);
      if status == 0 {
        Trees.HoldsInserted(tree, g, live, at, was, elements);
      } else {
        Trees.HoldsAgain(tree, g, live, was, elements);
      }
      Store();
      TreeChanged(rows, live);
    }

    /** jr_AVL_TreeExtractElementUsingKey: null when no element has the key. */
    method ExtractFromTree(k: int, ghost live: set<nat>) returns (deleted: AvlShape.Ptr, ghost before: seq<AvlShape.Ptr>, ghost after: seq<AvlShape.Ptr>)
      requires Sound(live) && lists.base > 0 && lists.objsize > 0
      modifies lists.buffer, tree`root, tree`mem, tree`tree
      ensures Sound(live)
      ensures deleted == 0 <==> forall x :: x in old(tree.Elements()) ==> tree.key(x) != k
      ensures deleted == 0 ==> tree.tree == old(tree.tree)
      ensures deleted != 0 ==> tree.key(deleted) == k && Trees.IsSlot(lists.G(), live, deleted)
      ensures deleted != 0 ==> old(tree.Elements()) == before + [deleted] + after && tree.Elements() == before + after
      ensures forall x :: 0 <= x < lists.buffer.Length ==> OnlyTreeWords(old(lists.buffer[x]), lists.buffer[x], column)
    {
      hide Sound, Settled, TreeLaidOut, LaidOut, Trees.Holds, Trees.At, HasCell, OnlyTreeWords, AvlShape.InOrder, AvlMemory.Rep,
        AvlExtract.Sorted, Trees.IsSlot;
      ghost var g, rows, was, elements := lists.G(), lists.buffer[..], tree.mem, tree.Elements();
      SoundParts(live);
      SoundLayout(live);
      SoundKeysIn(live);
      HeldParts(live);
      deleted, before, after := tree.ExtractElementUsingKey(k);
      if deleted != 0 {
        assert deleted in elements;
        Trees.HoldsExtracted(tree, g, live, deleted, was, elements);
      } else {
        Trees.HoldsAgain(tree, g, live, was, elements);
      }
      Store();
      TreeChanged(rows, live);
    }

    lemma HeldParts(live: set<nat>)
      requires lists.base > 0 && lists.objsize > 0 && Trees.Holds(tree, lists.G(), live)
      ensures tree.Valid() && AvlExtract.Sorted(tree.Elements(), tree.key) && Trees.AllSlots(lists.G(), live, tree.Elements())
      ensures forall s: nat :: s in live ==>
        Trees.At(lists.G(), s) in tree.mem && (Trees.At(lists.G(), s) in tree.Elements() || tree.mem[Trees.At(lists.G(), s)].height < 0)
    {
      hide AvlShape.InOrder, AvlMemory.Rep, AvlExtract.Sorted, Trees.At, Trees.IsSlot;
    }

    lemma SoundWords(live: set<nat>)
      requires Sound(live)
      ensures lists.base > 0 && lists.objsize > 0 && forall s :: s in live ==> s < lists.buffer.Length && WordsMatch(s)
    {
      hide Trees.Holds, Settled, TreeLaidOut, Trees.At, HasCell;
    }

    /** Changed links of one list are nothing to the tree; rows are those before. */
    lemma ListChanged(cs: seq<Container>, rows: seq<Row>, j: nat, live: set<nat>)
      requires lists.Reading(live) && j < |cs| && SameLayout(cs, lists.containers) && OnlyLinks(rows, lists.buffer[..], cs[j])
      requires TreeLaidOut(cs, lists.objsize, column, keyWord) && Trees.Holds(tree, lists.G(), live)
      requires forall s: nat :: s < lists.buffer.Length ==> Trees.At(lists.G(), s) in tree.mem
      requires forall s :: s in live ==> s < |rows| && RowMatches(rows[s], s)
      ensures Sound(live)
    {
      hide Settled, LaidOut, TreeLaidOut, Trees.Holds, Trees.At, SameLayout;
      TreeStaysLaidOut(cs, lists.containers, lists.objsize, column, keyWord);
      LinksOutside(cs, lists.objsize, column, keyWord, j);
      forall s | s in live
        ensures s < lists.buffer.Length && WordsMatch(s)
      {
        assert SameBut(rows[s], lists.buffer[..][s], cs[j]);
        CellKept(rows[s], lists.buffer[s], cs[j], column, keyWord);
      }
    }

    /** After the tree's words have been written, the keys being the same. */
    lemma TreeChanged(rows: seq<Row>, live: set<nat>)
      requires lists.Shape() && |rows| == lists.buffer.Length && keyWord < lists.objsize
      requires TreeLaidOut(lists.containers, lists.objsize, column, keyWord) && Trees.Holds(tree, lists.G(), live)
      requires forall s: nat :: s < lists.buffer.Length ==> Trees.At(lists.G(), s) in tree.mem
      requires forall x :: 0 <= x < |rows| ==> OnlyTreeWords(rows[x], lists.buffer[x], column)
      requires forall x :: 0 <= x < |rows| ==> HasCell(lists.buffer[x], column, tree.mem[Trees.At(lists.G(), x)])
      requires forall s :: s in live ==> s < |rows| && keyWord < |rows[s]| && tree.key(Trees.At(lists.G(), s)) == rows[s][keyWord]
      requires forall j :: 0 <= j < |lists.containers| ==> Settled(lists.G(), rows, lists.containers[j], lists.orders[j], live)
      ensures Sound(live)
    {
      hide Settled, LaidOut, TreeLaidOut, Trees.Holds, Trees.At, HasCell;
      KeyOutside(lists.containers, lists.objsize, column, keyWord);
      StoredSound(rows, live);
    }

    lemma SoundKeysIn(live: set<nat>)
      requires Sound(live)
      ensures lists.base > 0 && lists.objsize > 0
      ensures forall s :: s in live ==> s < lists.buffer.Length && keyWord < |lists.buffer[s]| && tree.key(Trees.At(lists.G(), s)) == lists.buffer[s][keyWord]
    {
      hide Trees.Holds, Settled, TreeLaidOut, Trees.At;
      forall s | s in live
        ensures s < lists.buffer.Length && keyWord < |lists.buffer[s]| && tree.key(Trees.At(lists.G(), s)) == lists.buffer[s][keyWord]
      {
        assert WordsMatch(s);
      }
    }

    /** After the tree's words have been written. */
    lemma StoredSound(rows: seq<Row>, live: set<nat>)
      requires lists.Shape() && |rows| == lists.buffer.Length && keyWord < lists.objsize
      requires TreeLaidOut(lists.containers, lists.objsize, column, keyWord) && Trees.Holds(tree, lists.G(), live)
      requires forall s: nat :: s < lists.buffer.Length ==> Trees.At(lists.G(), s) in tree.mem
      requires forall x :: 0 <= x < |rows| ==> OnlyTreeWords(rows[x], lists.buffer[x], column)
      requires forall x :: 0 <= x < |rows| ==> HasCell(lists.buffer[x], column, tree.mem[Trees.At(lists.G(), x)])
      requires forall x :: x in live ==> x < lists.buffer.Length && tree.key(Trees.At(lists.G(), x)) == lists.buffer[x][keyWord]
      requires forall j :: 0 <= j < |lists.containers| ==> Settled(lists.G(), rows, lists.containers[j], lists.orders[j], live)
      ensures Sound(live)
    {
      hide Trees.Holds, LaidOut, TreeLaidOut, OnlyTreeWords, HasCell, Settled, Trees.At;
      ListsUntouched(rows, live);
    }

    lemma SoundLayout(live: set<nat>)
      requires Sound(live)
      ensures TreeLaidOut(lists.containers, lists.objsize, column, keyWord) && keyWord < lists.objsize
      ensures forall s: nat :: s < lists.buffer.Length ==> lists.base > 0 && lists.objsize > 0 && Trees.At(lists.G(), s) in tree.mem
    {
      hide Trees.Holds, Settled, WordsMatch, Trees.At;
    }

    lemma ListsUntouched(rows: seq<Row>, live: set<nat>)
      requires lists.Shape() && |rows| == lists.buffer.Length && TreeLaidOut(lists.containers, lists.objsize, column, keyWord)
      requires forall j :: 0 <= j < |lists.containers| ==> Settled(lists.G(), rows, lists.containers[j], lists.orders[j], live)
      requires forall x :: 0 <= x < |rows| ==> OnlyTreeWords(rows[x], lists.buffer[x], column)
      ensures lists.Reading(live)
    {
      hide Settled, LaidOut, OnlyTreeWords, OutsideLinks;
      forall j | 0 <= j < |lists.containers|
        ensures Settled(lists.G(), lists.buffer[..], lists.containers[j], lists.orders[j], live)
      {
        assert OutsideLinks(lists.containers[j], column, keyWord);
        ListUntouched(lists.G(), rows, lists.buffer[..], lists.containers[j], lists.orders[j], live, column, keyWord);
      }
    }
  }

  lemma SameUserDataItself(cs: seq<Container>, k: nat)
    ensures forall row :: SameUserData(cs, k, row, row)
  {
  }

  /** Keeping track of where the user's words went, over one more move. */
  lemma UserDataMoves(cs: seq<Container>, cs2: seq<Container>, k: nat, rows: seq<Row>, was: seq<Row>, now: seq<Row>)
    requires SameLayout(cs, cs2)
    ensures forall x, y, z {:trigger SameUserData(cs, k, rows[x], was[y]), SameUserData(cs2, k, was[y], now[z])} ::
      (0 <= x < |rows| && 0 <= y < |was| && 0 <= z < |now| && SameUserData(cs, k, rows[x], was[y]) && SameUserData(cs2, k, was[y], now[z])) ==>
        SameUserData(cs, k, rows[x], now[z])
  {
    forall i: nat
      ensures IsData(cs, i) <==> IsData(cs2, i)
    {
      SameWordsAreData(cs, cs2, i);
    }
  }

  lemma SameWordsAreData(cs: seq<Container>, cs2: seq<Container>, i: nat)
    requires SameLayout(cs, cs2)
    ensures IsData(cs, i) <==> IsData(cs2, i)
  {
    forall j | 0 <= j < |cs|
      ensures cs2[j].column == cs[j].column && Width(cs2[j]) == Width(cs[j])
    {
      assert SameColumn(cs[j], cs2[j]);
    }
  }

  lemma RekeyedAt(g: Space, key: AvlShape.Ptr -> int, src: nat, to: nat, s: nat)
    requires g.base > 0 && g.step > 0
    ensures Trees.Rekeyed(key, Trees.At(g, src), Trees.At(g, to))(Trees.At(g, s)) == key(Trees.At(g, if s == to then src else s))
  {
    AddrFacts(g, s, to);
  }

  /** The user's words and the keys of the elements after growth. */
  lemma GrownWords(g: Space, d: int, n: nat, cs: seq<Container>, rows: seq<Row>, rows1: seq<Row>, rows2: seq<Row>, k: nat, keyWord: nat, key: AvlShape.Ptr -> int, key2: AvlShape.Ptr -> int)
    requires g.base > 0 && g.step > 0 && g.base + d > 0 && TreeLaidOut(cs, g.step, k, keyWord)
    requires n <= |rows| && n <= |rows1| == |rows2|
    requires forall x :: 0 <= x < n ==> |rows[x]| == g.step && SameData(cs, rows[x], rows1[x]) && OnlyTreeWords(rows1[x], rows2[x], k)
    requires forall x :: 0 <= x < n ==> keyWord < |rows[x]| && key(Trees.At(g, x)) == rows[x][keyWord]
    requires key2 == Trees.KeyBefore(key, d)
    ensures forall x :: 0 <= x < n ==> SameUserData(cs, k, rows[x], rows2[x])
    ensures forall x :: 0 <= x < n ==> keyWord < |rows2[x]| && key2(Trees.At(Trees.Moved(g, d), x)) == rows2[x][keyWord]
  {
    hide TreeLaidOut, SameData, OnlyTreeWords, SameUserData;
    forall x | 0 <= x < n
      ensures SameUserData(cs, k, rows[x], rows2[x])
      ensures keyWord < |rows2[x]| && key2(Trees.At(Trees.Moved(g, d), x)) == rows2[x][keyWord]
    {
      UserDataKept(cs, g.step, k, keyWord, rows[x], rows1[x], rows2[x]);
      Trees.MovedAt(g, d, x);
    }
  }

  lemma SlotsBelow(n: nat)
    ensures forall s: nat :: s < n ==> s in Below(n)
  {
  }

  lemma WithKeyAt(g: Space, key: AvlShape.Ptr -> int, s: nat, v: int, y: nat)
    requires g.base > 0 && g.step > 0
    ensures Trees.WithKey(key, Trees.At(g, s), v)(Trees.At(g, y)) == if y == s then v else key(Trees.At(g, y))
  {
    AddrFacts(g, s, y);
  }

  lemma KeptWithout(i: nat, k: nat, n: nat) returns (live: set<nat>)
    requires i + k <= n
    ensures live == Kept(k, n, i + k)
    ensures forall s :: s in live <==> s in Below(n) && !(i <= s < i + k)
  {
    live := Kept(k, n, i + k);
  }

  lemma BelowWithout(k: nat, n: nat)
    requires k <= n
    ensures forall s :: s in Below(n - k) <==> s in Below(n) && !(n - k <= s < n)
  {
  }

  lemma FewerSettled(g: Space, rows: seq<Row>, c: Container, order: seq<nat>, live: set<nat>, live2: set<nat>, i: nat, e: nat)
    requires Settled(g, rows, c, order, live) && forall s :: s in live2 <==> s in live && !(i <= s < e)
    requires forall p :: 0 <= p < |order| ==> !(i <= order[p] < e)
    ensures Settled(g, rows, c, order, live2)
  {
    ShrunkSettled(g, rows, c, order, live, live2);
  }

  /** A tree that has no element among slots i to e is held without them. */
  lemma FewerHeld(a: AvlTree.TreeObject, g: Space, live: set<nat>, live2: set<nat>, i: nat, e: nat)
    requires Trees.Holds(a, g, live) && forall s :: s in live2 <==> s in live && !(i <= s < e)
    requires g.base > 0 && g.step > 0 && forall s: nat :: i <= s < e ==> Trees.At(g, s) !in a.Elements()
    ensures Trees.Holds(a, g, live2)
  {
    hide Trees.At, AvlShape.InOrder, AvlMemory.Rep, NoDup, AvlShape.SizesExact, AvlExtract.Sorted;
    forall x | x in a.Elements()
      ensures Trees.IsSlot(g, live2, x)
    {
      var s: nat :| s in live && Trees.At(g, s) == x;
      assert s in live2;
    }
  }

  lemma CellKept(row: Row, row2: Row, c: Container, k: nat, keyWord: nat)
    requires SameBut(row, row2, c) && OutsideLinks(c, k, keyWord) && keyWord < |row|
    ensures row2[keyWord] == row[keyWord] && forall cell :: HasCell(row, k, cell) ==> HasCell(row2, k, cell)
  {
  }

  lemma KeyOutside(cs: seq<Container>, size: nat, k: nat, keyWord: nat)
    requires TreeLaidOut(cs, size, k, keyWord)
    ensures forall row, row2 :: OnlyTreeWords(row, row2, k) && keyWord < |row| ==> row2[keyWord] == row[keyWord]
  {
  }

  lemma NoLinksChanged(rows: seq<Row>, c: Container)
    ensures OnlyLinks(rows, rows, c)
  {
  }

  lemma LinksOutside(cs: seq<Container>, size: nat, k: nat, keyWord: nat, j: nat)
    requires TreeLaidOut(cs, size, k, keyWord) && j < |cs|
    ensures OutsideLinks(cs[j], k, keyWord)
  {
  }

  lemma UserDataKept(cs: seq<Container>, size: nat, k: nat, keyWord: nat, row: Row, row1: Row, row2: Row)
    requires TreeLaidOut(cs, size, k, keyWord) && SameData(cs, row, row1) && OnlyTreeWords(row1, row2, k) && |row| == size
    ensures SameUserData(cs, k, row, row2) && |row2| == size && row2[keyWord] == row[keyWord] == row1[keyWord]
  {
    TreeWordsAreData(cs, size, k, keyWord);
    hide TreeLaidOut;
  }
}
