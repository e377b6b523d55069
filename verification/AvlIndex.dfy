/** The tree as a sequence: operations by position, found from the stored
    subtree sizes. */
module AvlIndex {
  import opened Sequences
  import opened AvlShape
  import opened AvlExtract
  import opened AvlMemory
  import opened AvlRotate
  import opened AvlSpine
  import opened AvlTree

  /** The number of elements below position i at a place: the search by index
      stops at element i, or at a null pointer before or after all elements. */
  ghost predicate AtIndex(steps: seq<Crumb>, sub: Tree, i: int) {
    if sub.Node? then |Before(steps)| + |InOrder(sub.left)| == i
    else if i < 0 then Before(steps) == []
    else After(steps) == [] && i >= |Before(steps)|
  }

  /** What the search by index has left to look at. */
  ghost predicate Covers(steps: seq<Crumb>, sub: Tree, i: int) {
    && (i < |Before(steps)| ==> i < 0 && Before(steps) == [])
    && (i >= |Before(steps)| + |InOrder(sub)| ==> After(steps) == [])
  }

  lemma CoversStep(steps: seq<Crumb>, t: Tree, i: int)
    requires t.Node? && Covers(steps, t, i) && SizesExact(t)
    ensures Size(t.left) == |InOrder(t.left)|
    ensures i < |Before(steps)| + Size(t.left) ==> Covers(steps + [LeftStep(t)], t.left, i)
    ensures i > |Before(steps)| + Size(t.left) ==> Covers(steps + [RightStep(t)], t.right, i)
    ensures Before(steps + [LeftStep(t)]) == Before(steps)
    ensures |Before(steps + [RightStep(t)])| == |Before(steps)| + Size(t.left) + 1
  {
    assert Rest(steps + [LeftStep(t)]) == steps && Rest(steps + [RightStep(t)]) == steps;
    assert Last(steps + [LeftStep(t)]) == LeftStep(t) && Last(steps + [RightStep(t)]) == RightStep(t);
    assert |InOrder(t)| == |InOrder(t.left)| + 1 + |InOrder(t.right)|;
    assert CrumbBefore(RightStep(t)) == InOrder(t.left) + [t.ptr];
    assert Before(steps + [LeftStep(t)]) == Before(steps) + [];
    assert After(steps + [RightStep(t)]) == [] + After(steps);
  }

  /** The search loop of the operations by index. */
  method DescendByIndex(a: TreeObject, i: int) returns (path: seq<Ptr>, curr: Ptr, ghost steps: seq<Crumb>, ghost sub: Tree)
    requires a.Valid()
    ensures a.AtPlace(path, steps, curr, sub)
    ensures AtIndex(steps, sub, i)
  {
    hide InOrder, RepPath, Rep, Before, After, Plug, SizesExact;
    path, curr, steps, sub := [], a.root, [], a.tree;
    var currIndex := 0;
    a.StartPlace();
    NothingAround();
    while curr != 0
      invariant a.AtPlace(path, steps, curr, sub)
      invariant Covers(steps, sub, i) && currIndex == |Before(steps)|
      decreases sub
    {
      RootFields(a.mem, curr, sub);
      ChildReps(a.mem, sub);
      SizesExactAtHole(steps, sub);
      var leftChild := a.mem[curr].left;
      RootFields(a.mem, leftChild, sub.left);
      var leftTreeSize := if leftChild != 0 then a.mem[leftChild].size else 0;
      CoversStep(steps, sub, i);
      if i == currIndex + leftTreeSize {
        return;
      }
      StepDown(a.mem, a.root, steps, sub, i < currIndex + leftTreeSize);
      path := path + [curr];
      if i < currIndex + leftTreeSize {
        steps := steps + [LeftStep(sub)];
        curr, sub := leftChild, sub.left;
      } else {
        steps := steps + [RightStep(sub)];
        curr, sub := a.mem[curr].right, sub.right;
        currIndex := currIndex + leftTreeSize + 1;
      }
    }
    RootFields(a.mem, curr, sub);
    LeafElements(sub);
  }

  lemma LeafElements(t: Tree)
    requires t.Leaf?
    ensures InOrder(t) == []
  {
  }

  /** jr_AVL_TreeFindElementPtrUsingIndex. */
  method FindElementUsingIndex(a: TreeObject, i: int) returns (found: Ptr)
    requires a.Valid()
    ensures found == if 0 <= i < |a.Elements()| then a.Elements()[i] else 0
  {
    hide InOrder, RepPath, Rep, Before, After, Plug, SizesExact;
    var path;
    ghost var steps, sub;
    path, found, steps, sub := DescendByIndex(a, i);
    RootFields(a.mem, found, sub);
    if found != 0 {
      ExtractedElements(steps, sub);
    } else {
      TreeObject.PlaceElements(steps);
      LeafElements(sub);
    }
  }

  lemma {:induction false} SpineTurns(steps: seq<Crumb>, t: Tree)
    requires t.Node?
    ensures Spine(t, true) != [] && Last(steps + Spine(t, true)).WentRight?
    decreases t
  {
    if t.right.Node? {
      SpineTurns(steps + [RightStep(t)], t.right);
      assert steps + [RightStep(t)] + Spine(t.right, true) == steps + Spine(t, true);
    }
  }

  lemma NothingAfter(steps: seq<Crumb>)
    requires |steps| > 0 && After(steps) == []
    ensures Last(steps).WentRight?
  {
  }

  lemma OneStepLeft(steps: seq<Crumb>, t: Tree)
    requires t.Node?
    ensures Before(steps + [LeftStep(t)]) == Before(steps)
    ensures Last(steps + [LeftStep(t)]).WentLeft?
    ensures t.left.Leaf? ==> InOrder(t.left) == []
  {
    assert Rest(steps + [LeftStep(t)]) == steps && Last(steps + [LeftStep(t)]) == LeftStep(t);
  }

  /** What hangs on the right of the first element. */
  function BehindFirst(t: Tree): Tree {
    if t.Leaf? then Leaf else if t.left.Leaf? then t.right else BehindFirst(t.left)
  }

  lemma {:induction false} FirstAtPlace(path: seq<Crumb>, t: Tree)
    requires t.Node? && t.left.Leaf? && Before(path) == []
    ensures BehindFirst(Plug(path, t)) == t.right
    decreases |path|
  {
    if |path| > 0 {
      NothingBefore(path);
      FirstUnder(Rest(path), Fill(Last(path), t));
    }
  }

  /** The first element of a tree is that of its leftmost subtree. */
  lemma {:induction false} FirstUnder(path: seq<Crumb>, t: Tree)
    requires t.Node? && t.left.Node? && Before(path) == []
    ensures BehindFirst(Plug(path, t)) == BehindFirst(t.left)
    decreases |path|
  {
    if |path| > 0 {
      NothingBefore(path);
      FirstUnder(Rest(path), Fill(Last(path), t));
    }
  }

  lemma NothingBefore(path: seq<Crumb>)
    requires |path| > 0 && Before(path) == []
    ensures Last(path).WentLeft? && Before(Rest(path)) == []
  {
  }

  /** jr_AVL_TreeInsertElementUsingIndex. Only the upper bound is demanded. With a
      negative index the new element takes the place of what hangs on the right of
      the first element, and that is lost. */
  method InsertElementUsingIndex(a: TreeObject, newNode: Ptr, i: int)
    requires a.Valid() && i <= |a.Elements()|
    requires newNode != 0 && newNode in a.mem && newNode !in a.Elements()
    modifies a`root, a`mem, a`tree
    ensures i >= 0 ==> a.Valid() && a.Elements() == old(a.Elements()[..i]) + [newNode] + old(a.Elements()[i..])
    ensures i >= 0 && Avl(old(a.tree)) ==> Avl(a.tree)
    ensures i < 0 ==> Misplaced(a, old(a.Elements()), newNode, BehindFirst(old(a.tree)))
    ensures i < 0 && Avl(old(a.tree)) ==> (a.Valid() <==> BehindFirst(old(a.tree)).Leaf?)
    ensures Confined(old(a.mem), a.mem, old(a.Elements()) + [newNode])
  {
    hide InOrder, RepPath, Rep, Before, After, Plug, SizesExact, NoDup, Weak, Inserted;
    var path, curr;
    ghost var steps, sub;
    path, curr, steps, sub := DescendByIndex(a, i);
    RootFields(a.mem, curr, sub);
    if curr == 0 && i < 0 && |path| > 0 {
      AppendBehindFirst(a, newNode, path, steps);
      return;
    }
    var isLeft := false;
    if curr != 0 {
      StepDown(a.mem, a.root, steps, sub, true);
      OneStepLeft(steps, sub);
      var left := a.mem[curr].left;
      RootFields(a.mem, left, sub.left);
      isLeft := left == 0;
      SpineElements(steps + [LeftStep(sub)], sub.left);
      path := a.DescendSpine(path + [curr], left, true, steps + [LeftStep(sub)], sub.left);
      if sub.left.Node? {
        SpineTurns(steps + [LeftStep(sub)], sub.left);
      } else {
        assert Spine(sub.left, true) == [];
        assert steps + [LeftStep(sub)] + [] == steps + [LeftStep(sub)];
      }
      steps := steps + [LeftStep(sub)] + Spine(sub.left, true);
    } else if |steps| > 0 {
      NothingAfter(steps);
    }
    TreeObject.PlaceElements(steps);
    assert i >= 0 ==> |Before(steps)| == i;
    a.AppendToPath(path, isLeft, newNode, steps);
    InsertedElements(steps, newNode);
    if i < 0 {
      EmptyPath(steps);
    }
    if Avl(old(a.tree)) {
      InsertKeepsAvl(steps, newNode);
    }
  }

  lemma EmptyPath(steps: seq<Crumb>)
    requires |steps| == 0
    ensures Plug(steps, Leaf) == Leaf && BehindFirst(Leaf) == Leaf && InOrder(Leaf) == []
    ensures Before(steps) == [] && After(steps) == []
  {
  }

  /** The new element stands behind the first one, and what stood on the right of
      that is not there any more; sizes may be wrong. */
  ghost predicate Misplaced(a: TreeObject, s: seq<Ptr>, newNode: Ptr, lost: Tree)
    reads a
  {
    && Rep(a.mem, a.root, a.tree) && NoDup(a.Elements()) && Weak(a.tree)
    && (lost.Leaf? ==> a.Valid())
    && if s == [] then a.Elements() == [newNode]
       else |InOrder(lost)| < |s| && a.Elements() == s[..1] + [newNode] + s[1 + |InOrder(lost)|..]
  }

  /** The end of the insert when the search ran off the front. */
  method AppendBehindFirst(a: TreeObject, newNode: Ptr, path: seq<Ptr>, ghost steps: seq<Crumb>)
    requires a.Valid() && a.AtPlace(path, steps, 0, Leaf) && Before(steps) == [] && |steps| > 0
    requires newNode != 0 && newNode in a.mem && newNode !in a.Elements()
    modifies a`root, a`mem, a`tree
    ensures old(a.Elements()) != []
    ensures Misplaced(a, old(a.Elements()), newNode, BehindFirst(old(a.tree)))
    ensures Avl(old(a.tree)) ==> (a.Valid() <==> BehindFirst(old(a.tree)).Leaf?)
    ensures Confined(old(a.mem), a.mem, old(a.Elements()) + [newNode])
  {
    hide InOrder, RepPath, Rep, Before, After, Plug, SizesExact, NoDup, Weak, Inserted, BehindFirst, Avl;
    LeafBack(a.mem, a.root, steps);
    NothingBefore(steps);
    ghost var rest, t := Rest(steps), Fill(Last(steps), Leaf);
    StepDown(a.mem, a.root, rest, t, false);
    ghost var place := rest + [RightStep(t)];
    AroundFirst(rest, t);
    a.AppendOver(path, false, newNode, place, a.mem[t.ptr].right, t.right);
    InsertedElements(place, newNode);
    if Avl(old(a.tree)) && t.right.Node? {
      SizeTooLarge(rest, t, newNode);
    }
  }

  lemma AroundFirst(rest: seq<Crumb>, t: Tree)
    requires t.Node? && t.left.Leaf? && Before(rest) + InOrder(t.left) == []
    ensures var place, s := rest + [RightStep(t)], InOrder(Plug(rest, t));
            && s != [] && |InOrder(t.right)| < |s|
            && Before(place) == s[..1] && After(place) == s[1 + |InOrder(t.right)|..]
            && BehindFirst(Plug(rest, t)) == t.right
  {
    FirstAtPlace(rest, t);
    PlugInOrder(rest, t);
    FirstParts(t);
    OneStepRight(rest, t);
    StepCrumb(rest, t);
    hide InOrder, Plug, Before, After, BehindFirst;
    var z := After(rest);
    assert InOrder(Plug(rest, t)) == [t.ptr] + InOrder(t.right) + z;
  }

  lemma FirstParts(t: Tree)
    requires t.Node? && t.left.Leaf?
    ensures InOrder(t) == [t.ptr] + InOrder(t.right)
  {
  }

  lemma StepCrumb(rest: seq<Crumb>, t: Tree)
    requires t.Node? && t.left.Leaf?
    ensures Before(rest + [RightStep(t)]) == Before(rest) + [t.ptr]
  {
    var place := rest + [RightStep(t)];
    assert Rest(place) == rest && Last(place) == RightStep(t);
    assert CrumbBefore(RightStep(t)) == [t.ptr];
  }

  /** The first element counts what it has lost. */
  lemma SizeTooLarge(rest: seq<Crumb>, t: Tree, p: Ptr)
    requires t.Node? && t.left.Leaf? && t.right.Node? && Avl(Plug(rest, t)) && SizesExact(Plug(rest, t))
    ensures !SizesExact(Inserted(rest + [RightStep(t)], p))
  {
    hide InOrder, Plug, Inserted;
    AvlUnplug(rest, t);
    AvlHeights(t.right);
    SizesExactAtHole(rest, t);
    OneForMany(rest, t, p);
    TwoAndMore(t, p);
    var node := Node(Leaf, t.ptr, t.height, t.size + 1, Node(Leaf, p, 0, 1, Leaf));
    if SizesExact(Plug(Bump(rest, 1), node)) {
      SizesExactAtHole(Bump(rest, 1), node);
    }
  }

  /** A leaf in the place of a leaf's height: the climb ends at once. */
  lemma OneForMany(rest: seq<Crumb>, t: Tree, p: Ptr)
    requires t.Node? && t.left.Leaf? && t.height == 1
    ensures Inserted(rest + [RightStep(t)], p)
         == Plug(Bump(rest, 1), Node(Leaf, t.ptr, t.height, t.size + 1, Node(Leaf, p, 0, 1, Leaf)))
  {
    hide Plug, Rotated, CanRotate;
    var place := rest + [RightStep(t)];
    assert Rest(place) == rest && Last(place) == RightStep(t);
    var bumped := Bump(place, 1);
    assert Rest(bumped) == Bump(rest, 1);
    assert Last(bumped) == WentRight(t.left, t.ptr, t.height, t.size + 1);
  }

  lemma TwoAndMore(t: Tree, p: Ptr)
    requires t.Node? && t.left.Leaf? && t.right.Node?
    ensures |InOrder(t)| >= 2
    ensures |InOrder(Node(Leaf, t.ptr, t.height, t.size + 1, Node(Leaf, p, 0, 1, Leaf)))| == 2
  {
    assert InOrder(Node(Leaf, p, 0, 1, Leaf)) == [p];
  }

  /** jr_AVL_TreeAppendLastIndexedElement. */
  method AppendLastElement(a: TreeObject, newNode: Ptr)
    requires a.Valid() && newNode != 0 && newNode in a.mem && newNode !in a.Elements()
    modifies a`root, a`mem, a`tree
    ensures a.Valid() && a.Elements() == old(a.Elements()) + [newNode]
    ensures Avl(old(a.tree)) ==> Avl(a.tree)
    ensures Confined(old(a.mem), a.mem, old(a.Elements()) + [newNode])
  {
    hide InOrder, RepPath, Rep, Before, After, Plug, SizesExact, NoDup, Weak, Inserted;
    a.StartPlace();
    SpineElements([], a.tree);
    ghost var steps := [] + Spine(a.tree, true);
    var path := a.DescendSpine([], a.root, true, [], a.tree);
    if |steps| > 0 {
      SpineTurns([], a.tree);
    }
    a.AppendToPath(path, false, newNode, steps);
    InsertedElements(steps, newNode);
    if Avl(old(a.tree)) {
      InsertKeepsAvl(steps, newNode);
    }
  }

  /** jr_AVL_TreeExtractElementUsingIndex. Only the upper bound is demanded; a
      negative index takes out the first element. */
  method ExtractElementUsingIndex(a: TreeObject, i: int) returns (deleted: Ptr)
    requires a.Valid() && a.Elements() != [] && i < |a.Elements()|
    modifies a`root, a`mem, a`tree
    ensures a.Valid()
    ensures var s, at := old(a.Elements()), if i < 0 then 0 else i;
            deleted == s[at] && a.Elements() == s[..at] + s[at + 1..]
    ensures Confined(old(a.mem), a.mem, old(a.Elements()))
  {
    hide InOrder, RepPath, Rep, Before, After, Plug, SizesExact, NoDup, Weak, Extracted;
    var path, curr;
    ghost var steps, t;
    path, curr, steps, t := DescendByIndex(a, i);
    RootFields(a.mem, curr, t);
    if curr != 0 {
      assert (path + [curr])[..|path|] == path;
      path := path + [curr];
    } else {
      TreeObject.PlaceElements(steps);
      LeafElements(t);
      NothingAround();
      assert |steps| > 0;
      LeafBack(a.mem, a.root, steps);
      steps, t := Rest(steps), Fill(Last(steps), Leaf);
    }
    ExtractedElements(steps, t);
    deleted := a.ExtractPathEnd(path, steps, t);
  }

  /** A search that went past the first element, taken back one step. */
  lemma LeafBack(mem: Memory, root: Ptr, steps: seq<Crumb>)
    requires |steps| > 0 && RepPath(mem, root, steps, 0) && Before(steps) == []
    ensures var t := Fill(Last(steps), Leaf);
            && RepPath(mem, root, Rest(steps), t.ptr) && Rep(mem, t.ptr, t) && Plug(Rest(steps), t) == Plug(steps, Leaf)
            && Before(Rest(steps)) + InOrder(t.left) == []
  {
    assert Rep(mem, 0, Leaf);
  }
}
