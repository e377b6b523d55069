/** What extracting does to balance: the climb is made for inserts, and this is
    exactly when it is enough. */
module AvlBalance {
  import opened AvlShape
  import opened AvlExtract

  /** The higher child of a node that needs a rotation has children of unequal
      height, so that the choice between single and double rotation is right. */
  predicate UnequalGrandchildren(node: Tree)
    requires node.Node?
  {
    if H(node.right) > H(node.left) then node.right.Node? && H(node.right.left) != H(node.right.right)
    else node.left.Node? && H(node.left.left) != H(node.left.right)
  }

  /** The climb after an extract, which has made the subtree t one lower, leaves
      the tree balanced: at the first rotation the grandchildren are unequal, and
      the node, now one lower too, has no sibling or one as high as it was. */
  predicate StaysBalanced(path: seq<Crumb>, t: Tree)
    decreases |path|
  {
    |path| > 0 ==>
      var node, rest := Fill(Last(path), t), Rest(path);
      if Difference(node) == 2 then
        UnequalGrandchildren(node) && (|rest| > 0 ==> H(Sibling(Last(rest))) == node.height)
      else
        node.height != HigherChild(node) + 1 ==> StaysBalanced(rest, node.(height := HigherChild(node) + 1))
  }

  /** A subtree that got one lower leaves the tree balanced exactly when its
      sibling is as high as it was. */
  lemma LowerSubtree(path: seq<Crumb>, was: Tree, t: Tree)
    requires Avl(Plug(path, was)) && Avl(t) && H(t) == H(was) - 1
    ensures Avl(Plug(path, t)) <==> (|path| > 0 ==> H(Sibling(Last(path))) == H(was))
  {
    if |path| > 0 {
      var c, rest := Last(path), Rest(path);
      var before, node := Fill(c, was), Fill(c, t);
      assert Plug(path, was) == Plug(rest, before) && Plug(path, t) == Plug(rest, node);
      hide Plug, Avl;
      AvlUnplug(rest, before);
      LowerChild(c, was, t);
      if Avl(node) {
        AvlReplaced(rest, before, node);
      } else if Avl(Plug(rest, node)) {
        AvlUnplug(rest, node);
      }
    }
  }

  lemma LowerChild(c: Crumb, was: Tree, t: Tree)
    requires Avl(Fill(c, was)) && Avl(t) && H(t) == H(was) - 1
    ensures Avl(Fill(c, t)) <==> H(Sibling(c)) == H(was)
  {
  }

  /** A double rotation over grandchildren of equal height stores a height that
      is one too small. */
  lemma TieIsNotBalanced(node: Tree)
    requires node.Node? && Avl(node.left) && Avl(node.right) && Difference(node) == 2
    requires CanRotate(node) && !UnequalGrandchildren(node)
    ensures !Avl(Rotated(node))
  {
    AvlHeights(node.left);
    AvlHeights(node.right);
  }

  /** One element of the climb after an extract. */
  lemma ShrunkNode(c: Crumb, was: Tree, t: Tree)
    requires Avl(Fill(c, was)) && Avl(t) && H(t) == H(was) - 1
    ensures var node := Fill(c, t);
            && Avl(node.left) && Avl(node.right)
            && (Difference(node) == 2 ==> CanRotate(node) && HigherChild(node) == node.height - 1)
            && (Difference(node) == 2 && UnequalGrandchildren(node) ==> Avl(Rotated(node)) && H(Rotated(node)) == node.height - 1)
            && (Difference(node) != 2 && node.height == HigherChild(node) + 1 ==> Avl(node))
            && (Difference(node) != 2 && node.height != HigherChild(node) + 1 ==>
                  var node2 := node.(height := HigherChild(node) + 1);
                  Avl(node2) && H(node2) == node.height - 1)
  {
    var node := Fill(c, t);
    AvlHeights(t);
    AvlHeights(Sibling(c));
    if Difference(node) == 2 {
      AvlIsWeak(node.left);
      AvlIsWeak(node.right);
      WeakRotates(node);
      if UnequalGrandchildren(node) {
        RotatedAvl(node);
      }
    }
  }

  lemma {:induction false} ShrunkClimb(path: seq<Crumb>, was: Tree, t: Tree)
    requires Avl(Plug(path, was)) && Avl(t) && H(t) == H(was) - 1
    ensures Avl(BalanceUp(path, t)) <==> StaysBalanced(path, t)
    decreases |path|
  {
    if |path| > 0 {
      hide Avl, Plug, Rotated, CanRotate, UnequalGrandchildren, BalanceUp, StaysBalanced, HigherChild, Difference, Fill;
      var c, rest := Last(path), Rest(path);
      var before, node := Fill(c, was), Fill(c, t);
      ClimbUnfolds(path, t);
      ConditionUnfolds(path, t);
      assert before.height == node.height && Plug(path, was) == Plug(rest, before) by {
        OneCrumbMore(path, was, t);
      }
      AvlUnplug(rest, before);
      ShrunkNode(c, was, t);
      if Difference(node) == 2 {
        if UnequalGrandchildren(node) {
          LowerSubtree(rest, before, Rotated(node));
        } else {
          TieIsNotBalanced(node);
          if Avl(Plug(rest, Rotated(node))) {
            AvlUnplug(rest, Rotated(node));
          }
        }
      } else if node.height == HigherChild(node) + 1 {
        AvlReplaced(rest, before, node);
      } else {
        ShrunkClimb(rest, before, node.(height := HigherChild(node) + 1));
      }
    }
  }

  lemma OneCrumbMore(path: seq<Crumb>, was: Tree, t: Tree)
    requires |path| > 0
    ensures Plug(path, was) == Plug(Rest(path), Fill(Last(path), was))
    ensures Fill(Last(path), was).height == Fill(Last(path), t).height
  {
  }

  /** One element of the climb. */
  lemma ClimbUnfolds(path: seq<Crumb>, t: Tree)
    requires |path| > 0
    ensures var node, rest := Fill(Last(path), t), Rest(path);
            BalanceUp(path, t) ==
              if Difference(node) == 2 then Plug(rest, if CanRotate(node) then Rotated(node) else node)
              else if node.height == HigherChild(node) + 1 then Plug(rest, node)
              else BalanceUp(rest, node.(height := HigherChild(node) + 1))
  {
    hide CanRotate, Rotated, UnequalGrandchildren, Plug, HigherChild, Difference, Fill;
  }

  /** One step of the climb, for any stored heights: it rotates when those of the
      children differ by exactly 2, and not when they differ by more; it ends there, or
      where the height is right already, and else goes on. */
  lemma OneStepUp(path: seq<Crumb>, c: Crumb, t: Tree)
    ensures var node := Fill(c, t);
            var l, r := H(node.left), H(node.right);
            var height := 1 + if l < r then r else l;
            BalanceUp(path + [c], t) ==
              if l - r == 2 || r - l == 2 then Plug(path, if CanRotate(node) then Rotated(node) else node)
              else if node.height == height then Plug(path, node)
              else BalanceUp(path, node.(height := height))
  {
    hide BalanceUp, Plug, Fill, CanRotate, Rotated;
    ClimbUnfolds(path + [c], t);
    assert Rest(path + [c]) == path && Last(path + [c]) == c;
  }

  lemma ConditionUnfolds(path: seq<Crumb>, t: Tree)
    requires |path| > 0
    ensures var node, rest := Fill(Last(path), t), Rest(path);
            StaysBalanced(path, t) ==
              if Difference(node) == 2 then
                UnequalGrandchildren(node) && (|rest| > 0 ==> H(Sibling(Last(rest))) == node.height)
              else node.height != HigherChild(node) + 1 ==> StaysBalanced(rest, node.(height := HigherChild(node) + 1))
  {
    hide CanRotate, Rotated, UnequalGrandchildren, Plug, HigherChild, Difference, Fill;
  }

  /** What was at the hole before the extraction: one higher, in a tree of the
      same heights. */
  lemma HoleBefore(path: seq<Crumb>, t: Tree) returns (was: Tree)
    requires t.Node? && Avl(Plug(path, t))
    ensures var (p, hole) := ExtractPath(path, t);
            Avl(Plug(p, was)) && Avl(hole) && H(hole) == H(was) - 1
  {
    AvlUnplug(path, t);
    if t.left.Leaf? && t.right.Leaf? {
      was := t;
    } else if ReplacesFromLeft(t) {
      was := RightSpine(t.left).1;
      var c := WentLeft(was.ptr, t.height, t.size, t.right);
      RightSpinePlugs(t.left);
      MovedUp(path, c, RightSpine(t.left).0, was, t, t.left);
    } else {
      was := LeftSpine(t.right).1;
      var c := WentRight(t.left, was.ptr, t.height, t.size);
      LeftSpinePlugs(t.right);
      MovedUp(path, c, LeftSpine(t.right).0, was, t, t.right);
    }
  }

  lemma MovedUp(path: seq<Crumb>, c: Crumb, spine: seq<Crumb>, last: Tree, t: Tree, child: Tree)
    requires t.Node? && last.Node? && Avl(Plug(path, t)) && Avl(t) && Plug(spine, last) == child
    requires Fill(c, child) == t.(ptr := c.ptr) && Avl(child)
    requires last.left.Leaf? || last.right.Leaf?
    ensures Avl(Plug(path + [c] + spine, last))
    ensures Avl(last.left) && Avl(last.right) && H(if last.right.Leaf? then last.left else last.right) == H(last) - 1
  {
    AvlUnplug(spine, last);
    OneChild(last);
    assert Avl(t.(ptr := c.ptr));
    hide Plug, Avl, Fill;
    PlugConcat(path + [c], spine, last);
    PlugConcat(path, [c], child);
    OneCrumb(c, child);
    AvlSameHeights(path, t, t.(ptr := c.ptr));
  }

  lemma OneCrumb(c: Crumb, t: Tree)
    ensures Plug([c], t) == Fill(c, t)
  {
    assert Rest([c]) == [];
  }

  lemma OneChild(last: Tree)
    requires last.Node? && Avl(last) && (last.left.Leaf? || last.right.Leaf?)
    ensures Avl(last.left) && Avl(last.right) && H(if last.right.Leaf? then last.left else last.right) == H(last) - 1
  {
    AvlHeights(last.left);
    AvlHeights(last.right);
  }

  /** Extracting from a balanced tree leaves a balanced tree if and only if the
      climb stays balanced. */
  lemma ExtractKeepsAvlIff(path: seq<Crumb>, t: Tree)
    requires t.Node? && Avl(Plug(path, t))
    ensures var (p, hole) := ExtractPath(path, t);
            Avl(Extracted(path, t)) <==> StaysBalanced(Bump(p, -1), hole)
  {
    var was := HoleBefore(path, t);
    var (p, hole) := ExtractPath(path, t);
    AvlBump(p, was, -1);
    ShrunkClimb(Bump(p, -1), was, hole);
  }

  // ----- the place of the extracted element -----

  lemma BumpConcat(path: seq<Crumb>, c: Crumb, more: seq<Crumb>, d: int)
    ensures Bump(path + [c] + more, d) == Bump(path, d) + [c.(size := c.size + d)] + Bump(more, d)
    decreases |more|
  {
    var all := path + [c] + more;
    if |more| == 0 {
      assert all == path + [c] && Rest(all) == path && Last(all) == c;
      assert Bump(more, d) == [];
    } else {
      assert Rest(all) == path + [c] + Rest(more) && Last(all) == Last(more);
      BumpConcat(path, c, Rest(more), d);
    }
  }

  /** A climb from a subtree x that has got one lower, through the steps below front:
      it ends within these, or goes on from a subtree y that has got one lower. */
  lemma {:induction false} ClimbThrough(front: seq<Crumb>, steps: seq<Crumb>, was: Tree, x: Tree) returns (y: Tree, goesOn: bool)
    requires Avl(Plug(steps, was)) && Avl(x) && H(x) == H(was) - 1
    ensures BalanceUp(front + steps, x) == if goesOn then BalanceUp(front, y) else Plug(front, y)
    ensures goesOn ==> H(y) == H(Plug(steps, was)) - 1
    ensures InOrder(y) == Before(steps) + InOrder(x) + After(steps)
    decreases |steps|
  {
    hide Avl, Plug, Rotated, CanRotate, BalanceUp, HigherChild, Difference, Fill, Before, After, InOrder;
    if |steps| == 0 {
      assert front + steps == front;
      y, goesOn := x, true;
      NothingAround(x);
      NothingAround(was);
    } else {
      var c, rest := Last(steps), Rest(steps);
      var before, node := Fill(c, was), Fill(c, x);
      OneStep(front, steps, x);
      OneCrumbMore(steps, was, x);
      AvlUnplug(rest, before);
      ShrunkNode(c, was, x);
      SameAround(steps, x);
      if Difference(node) == 2 {
        y, goesOn := Plug(rest, Rotated(node)), false;
        RotatedInOrder(node);
        PlugInOrder(rest, Rotated(node));
        PlugConcat(front, rest, Rotated(node));
      } else if node.height == HigherChild(node) + 1 {
        y, goesOn := Plug(rest, node), false;
        PlugInOrder(rest, node);
        PlugConcat(front, rest, node);
      } else {
        SameElements(node, HigherChild(node) + 1);
        y, goesOn := ClimbThrough(front, rest, before, node.(height := HigherChild(node) + 1));
      }
    }
  }

  lemma NothingAround(x: Tree)
    ensures Plug([], x) == x && Before([]) + InOrder(x) + After([]) == InOrder(x)
  {
  }

  lemma OneStep(front: seq<Crumb>, steps: seq<Crumb>, x: Tree)
    requires |steps| > 0
    ensures var node, more := Fill(Last(steps), x), front + Rest(steps);
            BalanceUp(front + steps, x) ==
              if Difference(node) == 2 then Plug(more, if CanRotate(node) then Rotated(node) else node)
              else if node.height == HigherChild(node) + 1 then Plug(more, node)
              else BalanceUp(more, node.(height := HigherChild(node) + 1))
  {
    hide BalanceUp, Plug, Fill, CanRotate, Rotated, HigherChild, Difference;
    ClimbUnfolds(front + steps, x);
    assert Rest(front + steps) == front + Rest(steps) && Last(front + steps) == Last(steps);
  }

  lemma SameAround(steps: seq<Crumb>, x: Tree)
    requires |steps| > 0
    ensures var rest, node := Rest(steps), Fill(Last(steps), x);
            Before(rest) + InOrder(node) + After(rest) == Before(steps) + InOrder(x) + After(steps)
  {
    hide Plug, Fill, InOrder, Before, After;
    OneCrumbMore(steps, x, x);
    PlugInOrder(steps, x);
    PlugInOrder(Rest(steps), Fill(Last(steps), x));
  }

  lemma SameElements(t: Tree, h: int)
    requires t.Node?
    ensures InOrder(t.(height := h)) == InOrder(t)
  {
  }

  lemma {:induction false} BumpHeight(path: seq<Crumb>, t: Tree, t2: Tree, d: int)
    requires H(t) == H(t2)
    ensures H(Plug(Bump(path, d), t2)) == H(Plug(path, t))
    decreases |path|
  {
    if |path| > 0 {
      var c := Last(path);
      var c2 := c.(size := c.size + d);
      assert Rest(Bump(path, d)) == Bump(Rest(path), d) && Last(Bump(path, d)) == c2;
      BumpHeight(Rest(path), Fill(c, t), Fill(c2, t2), d);
    }
  }

  /** The climb after an extract below c, in a child no lower than its sibling, to c
      and on from there. */
  lemma ClimbToPlace(path: seq<Crumb>, c: Crumb, spine: seq<Crumb>, last: Tree, hole: Tree) returns (y: Tree, h: int)
    requires Avl(Fill(c, Plug(spine, last))) && Avl(hole) && H(hole) == H(last) - 1
    requires H(Sibling(c)) <= H(Plug(spine, last))
    ensures h == c.height || h == c.height - 1
    ensures var node := Fill(c.(height := h, size := c.size - 1), y);
            BalanceUp(Bump(path + [c] + spine, -1), hole)
            == if h == c.height then Plug(Bump(path, -1), node) else BalanceUp(Bump(path, -1), node)
    ensures InOrder(y) == Before(spine) + InOrder(hole) + After(spine)
  {
    hide Plug, Bump, BalanceUp, Before, After, InOrder;
    var child, steps, c2 := Plug(spine, last), Bump(spine, -1), c.(size := c.size - 1);
    var front := Bump(path, -1) + [c2];
    BumpConcat(path, c, spine, -1);
    BumpHeight(spine, last, last, -1);
    BumpShape(spine, -1);
    AvlBump(spine, last, -1);
    var goesOn;
    y, goesOn := ClimbThrough(front, steps, last, hole);
    assert Rest(front) == Bump(path, -1) && Last(front) == c2;
    OneCrumbMore(front, y, y);
    ClimbUnfolds(front, y);
    h := if goesOn && H(Sibling(c)) < H(child) then c.height - 1 else c.height;
  }

  /** Extracting an element with children from a balanced tree never rotates at its
      place. There its neighbour q from the higher child, from the right one when they
      are equally high, has what is left of that child, y, and the other child as it
      was; the climb ends there or below, or goes on with the place one lower. */
  lemma NoRotationAtReplacement(path: seq<Crumb>, t: Tree) returns (q: Ptr, y: Tree, h: int)
    requires t.Node? && Avl(Plug(path, t)) && (t.left.Node? || t.right.Node?)
    ensures if H(t.left) > H(t.right) then InOrder(t.left) == InOrder(y) + [q] else InOrder(t.right) == [q] + InOrder(y)
    ensures h == t.height || h == t.height - 1
    ensures var node := if H(t.left) > H(t.right) then Node(y, q, h, t.size - 1, t.right) else Node(t.left, q, h, t.size - 1, y);
            Extracted(path, t) == if h == t.height then Plug(Bump(path, -1), node) else BalanceUp(Bump(path, -1), node)
  {
    AvlUnplug(path, t);
    ChildHeights(t);
    hide Avl, Plug, Bump, BalanceUp, InOrder, Extracted;
    if H(t.left) > H(t.right) {
      q, y, h := NoRotationLeft(path, t);
    } else {
      q, y, h := NoRotationRight(path, t);
    }
  }

  lemma NoRotationLeft(path: seq<Crumb>, t: Tree) returns (q: Ptr, y: Tree, h: int)
    requires t.Node? && Avl(t) && Avl(t.left) && t.left.Node? && H(t.left) > H(t.right)
    ensures InOrder(t.left) == InOrder(y) + [q] && (h == t.height || h == t.height - 1)
    ensures Extracted(path, t) == var node := Node(y, q, h, t.size - 1, t.right);
                                  if h == t.height then Plug(Bump(path, -1), node) else BalanceUp(Bump(path, -1), node)
  {
    hide Avl, Plug, Bump, BalanceUp, InOrder, Before, After, ExtractPath, Fill, RightSpine;
    FromLeft(path, t);
    var (spine, last) := RightSpine(t.left);
    q := last.ptr;
    var c := WentLeft(q, t.height, t.size, t.right);
    TakenOff(spine, last, t.left);
    FilledAgain(t, q);
    StandsIn(t, c, t.left);
    y, h := ClimbToPlace(path, c, spine, last, last.left);
    LeftNode(q, t.height, t.size, t.right, h, y);
    assert Before(spine) + InOrder(last.left) + [] == Before(spine) + InOrder(last.left);
  }

  lemma NoRotationRight(path: seq<Crumb>, t: Tree) returns (q: Ptr, y: Tree, h: int)
    requires t.Node? && Avl(t) && Avl(t.right) && t.right.Node? && H(t.left) <= H(t.right)
    ensures InOrder(t.right) == [q] + InOrder(y) && (h == t.height || h == t.height - 1)
    ensures Extracted(path, t) == var node := Node(t.left, q, h, t.size - 1, y);
                                  if h == t.height then Plug(Bump(path, -1), node) else BalanceUp(Bump(path, -1), node)
  {
    hide Avl, Plug, Bump, BalanceUp, InOrder, Before, After, ExtractPath, Fill, LeftSpine;
    FromRight(path, t);
    var (spine, last) := LeftSpine(t.right);
    q := last.ptr;
    var c := WentRight(t.left, q, t.height, t.size);
    TakenOff(spine, last, t.right);
    FilledAgain(t, q);
    StandsIn(t, c, t.right);
    y, h := ClimbToPlace(path, c, spine, last, last.right);
    RightNode(q, t.height, t.size, t.left, h, y);
    assert [q] + InOrder(last.right) + After(spine) == [q] + ([] + InOrder(last.right) + After(spine));
  }

  lemma FilledAgain(t: Tree, q: Ptr)
    requires t.Node?
    ensures Fill(WentLeft(q, t.height, t.size, t.right), t.left) == t.(ptr := q) == Fill(WentRight(t.left, q, t.height, t.size), t.right)
  {
  }

  lemma ChildHeights(t: Tree)
    requires t.Node? && Avl(t)
    ensures Avl(t.left) && Avl(t.right)
    ensures t.left.Leaf? ==> H(t.left) <= H(t.right)
    ensures t.left.Node? && t.right.Leaf? ==> H(t.left) > H(t.right)
  {
    AvlHeights(t.left);
    AvlHeights(t.right);
  }

  lemma TakenOff(spine: seq<Crumb>, last: Tree, child: Tree)
    requires Plug(spine, last) == child && Avl(child) && last.Node? && (last.left.Leaf? || last.right.Leaf?)
    ensures var hole := if last.right.Leaf? then last.left else last.right;
            Avl(hole) && H(hole) == H(last) - 1
  {
    AvlUnplug(spine, last);
    OneChild(last);
  }

  lemma StandsIn(t: Tree, c: Crumb, child: Tree)
    requires t.Node? && Avl(t) && Fill(c, child) == t.(ptr := c.ptr)
    ensures Avl(Fill(c, child))
  {
    var r := Fill(c, child);
    hide Fill;
    assert r.left == t.left && r.right == t.right;
  }

  lemma LeftNode(q: Ptr, height: int, size: int, other: Tree, h: int, y: Tree)
    ensures var c := WentLeft(q, height, size, other); Fill(c.(height := h, size := c.size - 1), y) == Node(y, q, h, size - 1, other)
  {
  }

  lemma RightNode(q: Ptr, height: int, size: int, other: Tree, h: int, y: Tree)
    ensures var c := WentRight(other, q, height, size); Fill(c.(height := h, size := c.size - 1), y) == Node(other, q, h, size - 1, y)
  {
  }

  // ----- a tree that loses its balance -----

  function Of(l: Tree, p: Ptr, r: Tree): Tree {
    Node(l, p, 1 + Max(H(l), H(r)), 1 + Size(l) + Size(r), r)
  }

  function One(p: Ptr): Tree {
    Of(Leaf, p, Leaf)
  }

  function LowSide(): Tree {
    Of(Leaf, 3, One(4))
  }

  function HighSide(): Tree {
    Of(Of(Of(One(6), 7, Leaf), 8, One(9)), 10, Of(Leaf, 11, One(12)))
  }

  lemma Sides()
    ensures Avl(LowSide()) && H(LowSide()) == 1 && Avl(HighSide()) && H(HighSide()) == 3
    ensures Avl(One(1)) && H(One(1)) == 0
  {
    hide Avl, Of, One, H;
    OneAvl(1);
    OneAvl(4);
    OneAvl(6);
    OneAvl(9);
    OneAvl(12);
    OfAvl(Leaf, 3, One(4));
    OfAvl(One(6), 7, Leaf);
    OfAvl(Of(One(6), 7, Leaf), 8, One(9));
    OfAvl(Leaf, 11, One(12));
    OfAvl(Of(Of(One(6), 7, Leaf), 8, One(9)), 10, Of(Leaf, 11, One(12)));
  }

  lemma OneAvl(p: Ptr)
    ensures Avl(One(p)) && H(One(p)) == 0 && Avl(Leaf) && H(Leaf) == -1
  {
  }

  lemma OfAvl(l: Tree, p: Ptr, r: Tree)
    requires Avl(l) && Avl(r) && -1 <= H(l) - H(r) <= 1
    ensures Avl(Of(l, p, r)) && H(Of(l, p, r)) == 1 + Max(H(l), H(r))
  {
  }

  /** A balanced tree of twelve elements: extracting the first rotates its parent,
      which gets one lower, and the root next to a higher sibling is left as it is. */
  lemma ExtractLosesBalance()
    ensures var steps := [WentLeft(5, 4, 12, HighSide()), WentLeft(2, 2, 4, LowSide())];
            && Plug(steps, One(1)) == Node(Node(One(1), 2, 2, 4, LowSide()), 5, 4, 12, HighSide())
            && Avl(Plug(steps, One(1))) && !Avl(Extracted(steps, One(1)))
  {
    Sides();
    hide LowSide, HighSide, Extracted;
    assert One(1).left.Leaf? && One(1).right.Leaf?;
    hide One;
    var a, b := WentLeft(5, 4, 12, HighSide()), WentLeft(2, 2, 4, LowSide());
    TwoSteps(a, b, One(1));
    var steps := [a, b];
    assert ExtractPath(steps, One(1)) == (steps, Leaf);
    ExtractKeepsAvlIff(steps, One(1));
    var a2, b2 := WentLeft(5, 4, 11, HighSide()), WentLeft(2, 2, 3, LowSide());
    TwoBumped(a, b);
    assert Rest([a2, b2]) == [a2] && Last([a2]) == a2;
  }

  lemma TwoSteps(a: Crumb, b: Crumb, t: Tree)
    ensures Plug([a, b], t) == Fill(a, Fill(b, t))
  {
    assert Rest([a, b]) == [a];
    OneCrumb(a, Fill(b, t));
  }

  lemma TwoBumped(a: Crumb, b: Crumb)
    ensures Bump([a, b], -1) == [a.(size := a.size - 1), b.(size := b.size - 1)]
  {
    assert Rest([a, b]) == [a] && Rest([a]) == [];
    assert Bump([], -1) == [];
    assert Bump([a], -1) == [a.(size := a.size - 1)];
  }
}
