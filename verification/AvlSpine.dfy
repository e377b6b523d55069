/** Facts about descents along one side and about putting one element in
    another's place on a path, for the operations that extract. */
module AvlSpine {
  import opened Sequences
  import opened AvlShape
  import opened AvlExtract
  import opened AvlMemory
  import opened AvlRotate

  function RightStep(t: Tree): Crumb
    requires t.Node?
  {
    WentRight(t.left, t.ptr, t.height, t.size)
  }

  function LeftStep(t: Tree): Crumb
    requires t.Node?
  {
    WentLeft(t.ptr, t.height, t.size, t.right)
  }

  /** All steps of a descent to one side, down to the null pointer. */
  function Spine(t: Tree, right: bool): seq<Crumb> {
    if t.Leaf? then []
    else if right then [RightStep(t)] + Spine(t.right, right)
    else [LeftStep(t)] + Spine(t.left, right)
  }

  lemma {:induction false} SpineEndsAtLastRight(t: Tree)
    requires t.Node?
    ensures Spine(t, true) == RightSpine(t).0 + [RightStep(RightSpine(t).1)]
  {
    if t.right.Node? {
      SpineEndsAtLastRight(t.right);
    }
  }

  lemma {:induction false} SpineEndsAtLastLeft(t: Tree)
    requires t.Node?
    ensures Spine(t, false) == LeftSpine(t).0 + [LeftStep(LeftSpine(t).1)]
  {
    if t.left.Node? {
      SpineEndsAtLastLeft(t.left);
    }
  }

  /** A descent to the right passes all elements; one to the left passes none. */
  lemma {:induction false} SpineElements(path: seq<Crumb>, t: Tree)
    ensures Plug(path + Spine(t, true), Leaf) == Plug(path, t)
    ensures Before(path + Spine(t, true)) == Before(path) + InOrder(t)
    ensures After(path + Spine(t, true)) == After(path)
    decreases t
  {
    if t.Leaf? {
      assert path + [] == path;
    } else {
      var c := RightStep(t);
      assert path + Spine(t, true) == path + [c] + Spine(t.right, true);
      OneStepRight(path, t);
      hide Plug, Before, After, InOrder, Spine;
      SpineElements(path + [c], t.right);
    }
  }

  lemma OneStepRight(path: seq<Crumb>, t: Tree)
    requires t.Node?
    ensures Plug(path + [RightStep(t)], t.right) == Plug(path, t)
    ensures Before(path + [RightStep(t)]) + InOrder(t.right) == Before(path) + InOrder(t)
    ensures After(path + [RightStep(t)]) == After(path)
  {
    var c := RightStep(t);
    assert Rest(path + [c]) == path && Last(path + [c]) == c;
    var a, l, r := Before(path), InOrder(t.left), InOrder(t.right);
    assert InOrder(t) == l + [t.ptr] + r;
    hide InOrder;
    assert (a + (l + [t.ptr])) + r == a + (l + [t.ptr] + r);
    assert [] + After(path) == After(path);
  }

  /** Element q takes over the cell, and the place on the path, of element c. */
  lemma {:induction false} ReplaceStep(mem: Memory, root: Ptr, above: seq<Crumb>, c: Crumb, more: seq<Crumb>, p: Ptr, q: Ptr)
    requires RepPath(mem, root, above + [c] + more, p) && NoDup(Around(above + [c] + more))
    requires q != 0 && q in mem && q !in Around(above + [c] + more)
    ensures c.ptr in mem && (|above| > 0 ==> Last(above).ptr in mem)
    ensures RepPath(Linked(mem[q := mem[c.ptr]], above, q), if |above| == 0 then q else root,
                    above + [c.(ptr := q)] + more, p)
    decreases |more|
  {
    hide Around, NoDup, Before, After, Linked, InOrder;
    var path := above + [c] + more;
    if |more| == 0 {
      assert path == above + [c];
      assert above + [c.(ptr := q)] + more == above + [c.(ptr := q)];
      ReplaceLast(mem, root, above, c, p, q);
    } else {
      var m := Last(more);
      assert Last(path) == m && Rest(path) == above + [c] + Rest(more);
      CrumbParts(path);
      AroundRest(path);
      PathInMemory(mem, root, path, p);
      ReplaceStep(mem, root, above, c, Rest(more), m.ptr, q);
      var mem2 := Linked(mem[q := mem[c.ptr]], above, q);
      var rest2 := above + [c.(ptr := q)] + Rest(more);
      StepsAround(above, c, Rest(more));
      TreeInMemory(mem, if m.WentLeft? then mem[m.ptr].right else mem[m.ptr].left, Sibling(m));
      ReplacedCells(mem, c.ptr, above, q);
      assert SameOn(mem, mem2, InOrder(Sibling(m)));
      assert rest2 + [m] == above + [c.(ptr := q)] + more;
      hide RepPath;
      LastUnchanged(mem, mem2, if |above| == 0 then q else root, path, p, rest2, root);
    }
  }

  lemma ReplacedCells(mem: Memory, c: Ptr, above: seq<Crumb>, q: Ptr)
    requires c in mem && q in mem && (|above| > 0 ==> Last(above).ptr in mem)
    ensures forall x :: x in mem && x != q && (|above| > 0 ==> x != Last(above).ptr) ==>
              x in Linked(mem[q := mem[c]], above, q) && Linked(mem[q := mem[c]], above, q)[x] == mem[x]
  {
  }

  /** The elements of inner steps are among those around the path. */
  lemma {:induction false} StepsAround(above: seq<Crumb>, c: Crumb, more: seq<Crumb>)
    ensures c.ptr in Around(above + [c] + more)
    ensures |above| > 0 ==> Last(above).ptr in Around(above + [c] + more)
    decreases |more|
  {
    var path := above + [c] + more;
    AroundRest(path);
    if |more| == 0 {
      assert path == above + [c] && Rest(path) == above;
      if |above| > 0 {
        AroundRest(above);
      }
    } else {
      assert Rest(path) == above + [c] + Rest(more);
      StepsAround(above, c, Rest(more));
    }
  }

  lemma ReplaceLast(mem: Memory, root: Ptr, above: seq<Crumb>, c: Crumb, p: Ptr, q: Ptr)
    requires RepPath(mem, root, above + [c], p) && NoDup(Around(above + [c]))
    requires q != 0 && q in mem && q !in Around(above + [c])
    ensures c.ptr in mem && (|above| > 0 ==> Last(above).ptr in mem)
    ensures RepPath(Linked(mem[q := mem[c.ptr]], above, q), if |above| == 0 then q else root, above + [c.(ptr := q)], p)
  {
    hide Around, NoDup, Before, After, RepPath, Rep;
    var path := above + [c];
    assert Last(path) == c && Rest(path) == above;
    CrumbParts(path);
    AroundRest(path);
    PathInMemory(mem, root, path, p);
    LastStep(mem, root, above, c, p);
    var mem1 := mem[q := mem[c.ptr]];
    var sp := if c.WentLeft? then mem[c.ptr].right else mem[c.ptr].left;
    RepPathFrame(mem, mem1, root, above, c.ptr);
    Redirect(mem1, root, above, c.ptr, q);
    var mem2 := Linked(mem1, above, q);
    if |above| > 0 {
      AroundRest(above);
    }
    TreeInMemory(mem, sp, Sibling(c));
    RepFrame(mem, mem2, sp, Sibling(c));
    AddStep(mem2, if |above| == 0 then q else root, above, c.(ptr := q), p);
  }

  /** The cell of the last step of a path. */
  ghost predicate StepHolds(mem: Memory, c: Crumb, p: Ptr) {
    && c.ptr != 0 && c.ptr in mem && mem[c.ptr].height == c.height && mem[c.ptr].size == c.size
    && (if c.WentLeft? then mem[c.ptr].left == p else mem[c.ptr].right == p)
    && Rep(mem, if c.WentLeft? then mem[c.ptr].right else mem[c.ptr].left, Sibling(c))
  }

  lemma LastStep(mem: Memory, root: Ptr, above: seq<Crumb>, c: Crumb, p: Ptr)
    requires RepPath(mem, root, above + [c], p)
    ensures StepHolds(mem, c, p) && RepPath(mem, root, above, c.ptr)
  {
    assert Last(above + [c]) == c && Rest(above + [c]) == above;
  }

  lemma AddStep(mem: Memory, root: Ptr, above: seq<Crumb>, c: Crumb, p: Ptr)
    requires StepHolds(mem, c, p) && RepPath(mem, root, above, c.ptr)
    ensures RepPath(mem, root, above + [c], p)
  {
    assert Last(above + [c]) == c && Rest(above + [c]) == above;
  }

  lemma {:induction false} PrefixPath(mem: Memory, root: Ptr, above: seq<Crumb>, c: Crumb, more: seq<Crumb>, p: Ptr)
    requires RepPath(mem, root, above + [c] + more, p) && NoDup(Around(above + [c] + more))
    ensures RepPath(mem, root, above, c.ptr) && c.ptr !in Around(above) && c.ptr != 0
    decreases |more|
  {
    hide Around, NoDup, Before, After, Rep;
    var path := above + [c] + more;
    CrumbParts(path);
    if |more| == 0 {
      assert path == above + [c] && Rest(path) == above;
    } else {
      assert Rest(path) == above + [c] + Rest(more);
      PrefixPath(mem, root, above, c, Rest(more), Last(more).ptr);
    }
  }

  /** The parent's other child is a different element. */
  lemma ParentSides(mem: Memory, root: Ptr, steps: seq<Crumb>, p: Ptr)
    requires RepPath(mem, root, steps, p) && |steps| > 0 && p != 0 && p !in Around(steps)
    ensures var c := Last(steps);
            && c.ptr in mem && c.ptr != 0
            && (c.WentLeft? ==> mem[c.ptr].left == p && mem[c.ptr].right != p)
            && (!c.WentLeft? ==> mem[c.ptr].right == p && mem[c.ptr].left != p)
  {
    var c := Last(steps);
    AroundRest(steps);
    RootFields(mem, if c.WentLeft? then mem[c.ptr].right else mem[c.ptr].left, Sibling(c));
  }

  /** A subtree apart from a path and from element q is not disturbed when q
      takes over a place on the path. */
  lemma HoleUndisturbed(mem: Memory, q: Ptr, c: Ptr, above: seq<Crumb>, below: Ptr, hole: Tree)
    requires c in mem && q in mem && (|above| > 0 ==> Last(above).ptr in mem)
    requires Rep(mem, below, hole)
    requires forall x :: x in InOrder(hole) ==> x != q && (|above| > 0 ==> x != Last(above).ptr)
    ensures Rep(Linked(mem[q := mem[c]], above, q), below, hole)
  {
    TreeInMemory(mem, below, hole);
    RepFrame(mem, Linked(mem[q := mem[c]], above, q), below, hole);
  }

  lemma {:induction false} SpineSides(t: Tree)
    requires t.Node?
    ensures forall i :: 0 <= i < |RightSpine(t).0| ==> RightSpine(t).0[i].WentRight?
    decreases t
  {
    if t.right.Node? {
      SpineSides(t.right);
    }
  }

  lemma {:induction false} SpineSidesLeft(t: Tree)
    requires t.Node?
    ensures forall i :: 0 <= i < |LeftSpine(t).0| ==> LeftSpine(t).0[i].WentLeft?
    decreases t
  {
    if t.left.Node? {
      SpineSidesLeft(t.left);
    }
  }

  /** The last step of a path that leads to a null pointer, taken back. */
  lemma StepBack(mem: Memory, root: Ptr, path: seq<Crumb>, last: Tree, right: bool)
    requires last.Node? && (right ==> last.right.Leaf?) && (!right ==> last.left.Leaf?)
    requires RepPath(mem, root, path + [if right then RightStep(last) else LeftStep(last)], 0)
    ensures RepPath(mem, root, path, last.ptr) && Rep(mem, last.ptr, last)
    ensures Plug(path + [if right then RightStep(last) else LeftStep(last)], Leaf) == Plug(path, last)
  {
    var c := if right then RightStep(last) else LeftStep(last);
    assert Rest(path + [c]) == path && Last(path + [c]) == c;
    assert Rep(mem, 0, Leaf);
    assert Fill(c, Leaf) == last;
  }

  /** The place left behind by an extraction: its elements are those of the tree
      without the extracted one. */
  lemma ExtractPlace(steps: seq<Crumb>, t: Tree)
    requires t.Node? && NoDup(InOrder(Plug(steps, t)))
    ensures var (p, hole) := ExtractPath(steps, t);
            && NoDup(InOrder(Plug(p, hole)))
            && (forall x :: x in InOrder(Plug(p, hole)) ==> x in InOrder(Plug(steps, t)) && x != t.ptr)
  {
    var (p, hole) := ExtractPath(steps, t);
    HoleElements(steps, t);
    PlugInOrder(p, hole);
    ExtractedElements(steps, t);
    hide InOrder, Plug, Before, After, ExtractPath;
    WithoutMiddle(Before(steps) + InOrder(t.left), t.ptr, InOrder(t.right) + After(steps));
    ExtractedRegroup(Before(steps), InOrder(t.left), t.ptr, InOrder(t.right), After(steps));
  }

  /** Nothing lies around the whole tree. */
  lemma NothingAround()
    ensures Before([]) == [] && After([]) == []
  {
  }

  lemma WithoutMiddle(a: seq<Ptr>, p: Ptr, b: seq<Ptr>)
    requires NoDup(a + [p] + b)
    ensures NoDup(a + b) && p !in a + b
    ensures forall x :: x in a + b ==> x in a + [p] + b
  {
    SurroundedParts(a, [p], b);
    assert p in [p];
  }
}
