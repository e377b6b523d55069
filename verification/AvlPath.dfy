/** Looking elements up, and walking the tree without parent pointers. */
module AvlPath {
  import opened Sequences
  import opened AvlShape
  import opened AvlExtract
  import opened AvlMemory
  import opened AvlRotate
  import opened AvlSpine
  import opened AvlTree

  function FirstOf(s: seq<Ptr>): Ptr {
    if s == [] then 0 else s[0]
  }

  function LastOf(s: seq<Ptr>): Ptr {
    if s == [] then 0 else s[|s| - 1]
  }

  /** jr_AVL_TreeFindElementPtrUsingKey. */
  method FindElementUsingKey(a: TreeObject, k: int) returns (found: Ptr)
    requires a.Valid() && Sorted(a.Elements(), a.key)
    ensures found == 0 <==> forall x :: x in a.Elements() ==> a.key(x) != k
    ensures found != 0 ==> found in a.Elements() && a.key(found) == k
  {
    hide InOrder, RepPath, Rep, Before, After, Plug;
    var curr := a.root;
    ghost var steps: seq<Crumb>, sub := [], a.tree;
    a.StartPlace();
    while curr != 0
      invariant RepPath(a.mem, a.root, steps, curr) && Rep(a.mem, curr, sub) && Plug(steps, sub) == a.tree
      invariant AllBelow(Before(steps), a.key, k) && AllAbove(After(steps), a.key, k)
      decreases sub
    {
      RootFields(a.mem, curr, sub);
      if a.key(curr) == k {
        TreeObject.AroundIn(steps, sub);
        RepPlug(a.mem, a.root, steps, curr, sub);
        TreeInMemory(a.mem, a.root, a.tree);
        return curr;
      }
      DescendKeepsBounds(steps, sub, a.key, k);
      StepDown(a.mem, a.root, steps, sub, k < a.key(curr));
      TreeObject.CrumbsOf(sub);
      if k < a.key(curr) {
        steps := steps + [LeftStep(sub)];
        curr, sub := a.mem[curr].left, sub.left;
      } else {
        steps := steps + [RightStep(sub)];
        curr, sub := a.mem[curr].right, sub.right;
      }
    }
    RootFields(a.mem, curr, sub);
    TreeObject.EmptyPlace(steps, sub, a.key, k);
    return 0;
  }

  /** The last element that has no child on one side, going down that side. */
  method Outermost(mem: Memory, start: Ptr, right: bool, ghost sub: Tree) returns (p: Ptr)
    requires start != 0 && Rep(mem, start, sub)
    ensures InOrder(sub) != []
    ensures p == if right then LastOf(InOrder(sub)) else FirstOf(InOrder(sub))
  {
    hide Rep;
    p := start;
    ghost var t := sub;
    RootFields(mem, p, t);
    ChildReps(mem, t);
    while (if right then mem[p].right else mem[p].left) != 0
      invariant Rep(mem, p, t) && t.Node? && p == t.ptr && p in mem
      invariant InOrder(sub) != []
      invariant right ==> LastOf(InOrder(t)) == LastOf(InOrder(sub))
      invariant !right ==> FirstOf(InOrder(t)) == FirstOf(InOrder(sub))
      decreases t
    {
      ChildReps(mem, t);
      ghost var child := if right then t.right else t.left;
      p := if right then mem[p].right else mem[p].left;
      RootFields(mem, p, child);
      t := child;
    }
    ChildReps(mem, t);
    RootFields(mem, mem[p].left, t.left);
    RootFields(mem, mem[p].right, t.right);
  }

  /** jr_AVL_TreeSmallestElementPtr. */
  method SmallestElement(a: TreeObject) returns (p: Ptr)
    requires a.Valid()
    ensures p == FirstOf(a.Elements())
    ensures p == 0 <==> a.Elements() == []
  {
    RootFields(a.mem, a.root, a.tree);
    TreeInMemory(a.mem, a.root, a.tree);
    p := a.root;
    if p != 0 {
      p := Outermost(a.mem, p, false, a.tree);
      assert p in a.Elements();
    }
  }

  /** jr_AVL_TreeGreatestElementPtr. */
  method GreatestElement(a: TreeObject) returns (p: Ptr)
    requires a.Valid()
    ensures p == LastOf(a.Elements())
    ensures p == 0 <==> a.Elements() == []
  {
    RootFields(a.mem, a.root, a.tree);
    TreeInMemory(a.mem, a.root, a.tree);
    p := a.root;
    if p != 0 {
      p := Outermost(a.mem, p, true, a.tree);
      assert p in a.Elements();
    }
  }

  /** A search path whose last element is the root of subtree t. */
  ghost predicate EndsAt(a: TreeObject, path: seq<Ptr>, steps: seq<Crumb>, t: Tree)
    reads a
  {
    && t.Node? && |path| > 0 && path[|path| - 1] == t.ptr
    && a.AtPlace(path[..|path| - 1], steps, t.ptr, t)
  }

  /** jr_AVL_TreeFillSearchPath: the key lies between two neighbours, or at the
      end of the path. */
  method FillSearchPath(a: TreeObject, k: int) returns (path: seq<Ptr>, ghost steps: seq<Crumb>, ghost t: Tree)
    requires a.Valid() && Sorted(a.Elements(), a.key)
    ensures path == [] <==> a.Elements() == []
    ensures path != [] ==> EndsAt(a, path, steps, t)
    ensures path != [] ==> AllBelow(Before(steps), a.key, k) && AllAbove(After(steps), a.key, k)
    ensures path != [] && k < a.key(t.ptr) ==> t.left.Leaf?
    ensures path != [] && k > a.key(t.ptr) ==> t.right.Leaf?
  {
    hide InOrder, RepPath, Rep, Before, After, Plug;
    var curr, lastLeft;
    path, curr, lastLeft, steps, t := a.DescendByKey(k);
    RootFields(a.mem, curr, t);
    RootFields(a.mem, a.root, a.tree);
    TreeObject.AroundIn(steps, t);
    if curr != 0 {
      assert (path + [curr])[..|path|] == path;
      path := path + [curr];
    } else if |path| > 0 {
      BoundsBack(steps, a.key, k);
      OneStepBack(a.mem, a.root, steps);
      t := Fill(Last(steps), Leaf);
      TreeObject.AroundIn(Rest(steps), t);
      steps := Rest(steps);
    } else {
      EmptyPath(t);
    }
  }

  lemma EmptyPath(t: Tree)
    requires t.Leaf?
    ensures InOrder(Plug([], t)) == []
  {
  }

  lemma OneStepBack(mem: Memory, root: Ptr, steps: seq<Crumb>)
    requires |steps| > 0 && RepPath(mem, root, steps, 0)
    ensures var t := Fill(Last(steps), Leaf);
            RepPath(mem, root, Rest(steps), t.ptr) && Rep(mem, t.ptr, t) && Plug(Rest(steps), t) == Plug(steps, Leaf)
            && t.ptr in InOrder(t)
  {
    assert Rep(mem, 0, Leaf);
  }

  lemma BoundsBack(steps: seq<Crumb>, key: Ptr -> int, k: int)
    requires |steps| > 0 && AllBelow(Before(steps), key, k) && AllAbove(After(steps), key, k)
    ensures AllBelow(Before(Rest(steps)), key, k) && AllAbove(After(Rest(steps)), key, k)
    ensures if Last(steps).WentLeft? then k < key(Last(steps).ptr) else k > key(Last(steps).ptr)
  {
    BeforeAndAfter(steps);
    var c := Last(steps);
    hide InOrder, Before, After, AllBelow, AllAbove;
    BoundsParts(Before(Rest(steps)), CrumbBefore(c), key, k);
    BoundsParts(CrumbAfter(c), After(Rest(steps)), key, k);
    CrumbBounds(c, key, k);
  }

  lemma BoundsParts(a: seq<Ptr>, b: seq<Ptr>, key: Ptr -> int, k: int)
    ensures AllBelow(a + b, key, k) ==> AllBelow(a, key, k) && AllBelow(b, key, k)
    ensures AllAbove(a + b, key, k) ==> AllAbove(a, key, k) && AllAbove(b, key, k)
  {
    assert forall i :: 0 <= i < |a| ==> a[i] == (a + b)[i];
    assert forall i :: 0 <= i < |b| ==> b[i] == (a + b)[|a| + i];
  }

  lemma CrumbBounds(c: Crumb, key: Ptr -> int, k: int)
    requires AllBelow(CrumbBefore(c), key, k) && AllAbove(CrumbAfter(c), key, k)
    ensures if c.WentLeft? then k < key(c.ptr) else k > key(c.ptr)
  {
    hide InOrder;
    if c.WentLeft? {
      assert CrumbAfter(c)[0] == c.ptr;
    } else {
      assert CrumbBefore(c)[|CrumbBefore(c)| - 1] == c.ptr;
    }
  }

  lemma BeforeAndAfter(steps: seq<Crumb>)
    requires |steps| > 0
    ensures Before(steps) == Before(Rest(steps)) + CrumbBefore(Last(steps))
    ensures After(steps) == CrumbAfter(Last(steps)) + After(Rest(steps))
  {
  }

  /** What one step up tells about the neighbours. */
  lemma NeighbourAbove(mem: Memory, root: Ptr, steps: seq<Crumb>, p: Ptr)
    requires RepPath(mem, root, steps, p) && |steps| > 0 && p != 0
    requires p !in Around(steps) && NoDup(Around(steps))
    ensures var c := Last(steps);
            && c.ptr in mem && c.ptr != 0
            && (mem[c.ptr].left == p <==> c.WentLeft?) && (mem[c.ptr].right == p <==> c.WentRight?)
            && RepPath(mem, root, Rest(steps), c.ptr)
            && c.ptr !in Around(Rest(steps)) && NoDup(Around(Rest(steps)))
            && (c.WentLeft? ==> FirstOf(After(steps)) == c.ptr && After(steps) != [] && Before(Rest(steps)) == Before(steps))
            && (c.WentRight? ==> LastOf(Before(steps)) == c.ptr && Before(steps) != [] && After(Rest(steps)) == After(steps))
  {
    StepEnds(steps);
    hide InOrder, Before, After, Around, Rep, NoDup;
    ParentSides(mem, root, steps, p);
    CrumbParts(steps);
  }

  lemma StepEnds(steps: seq<Crumb>)
    requires |steps| > 0
    ensures var c := Last(steps);
            && (c.WentLeft? ==> FirstOf(After(steps)) == c.ptr && After(steps) != [] && Before(Rest(steps)) == Before(steps))
            && (c.WentRight? ==> LastOf(Before(steps)) == c.ptr && Before(steps) != [] && After(Rest(steps)) == After(steps))
  {
    hide InOrder;
    assert forall s: seq<Ptr> :: s + [] == s && [] + s == s;
  }

  /** jr_AVL_TreeGetNextPtrFromPath. */
  method NextFromPath(a: TreeObject, path: seq<Ptr>, ghost steps: seq<Crumb>, ghost t: Tree) returns (next: Ptr)
    requires a.Valid() && EndsAt(a, path, steps, t)
    ensures next == FirstOf(InOrder(t.right) + After(steps))
  {
    hide InOrder, RepPath, Rep, Before, After, Plug, NoDup;
    PathParts(steps, t);
    NodeFacts(a.mem, t);
    var i := |path| - 1;
    if a.mem[path[i]].right == 0 {
      assert steps[..i] == steps;
      ParentInMemory(a.mem, a.root, steps, path[i]);
      EmptySide(t.right, After(steps));
      while i > 0 && a.mem[path[i - 1]].right == path[i]
        invariant 0 <= i < |path|
        invariant RepPath(a.mem, a.root, steps[..i], path[i]) && path[i] != 0
        invariant path[i] !in Around(steps[..i]) && NoDup(Around(steps[..i]))
        invariant i > 0 ==> path[i - 1] in a.mem
        invariant After(steps[..i]) == After(steps)
      {
        ghost var now := steps[..i];
        NeighbourAbove(a.mem, a.root, now, path[i]);
        assert Rest(now) == steps[..i - 1] && Last(now).ptr == path[i - 1];
        i := i - 1;
        ParentInMemory(a.mem, a.root, steps[..i], path[i]);
      }
      if i == 0 {
        assert steps[..0] == [];
        NothingAround();
        return 0;
      }
      NeighbourAbove(a.mem, a.root, steps[..i], path[i]);
      return path[i - 1];
    }
    next := Outermost(a.mem, a.mem[path[i]].right, false, t.right);
    assert (InOrder(t.right) + After(steps))[0] == InOrder(t.right)[0];
  }

  lemma ParentInMemory(mem: Memory, root: Ptr, steps: seq<Crumb>, p: Ptr)
    requires RepPath(mem, root, steps, p)
    ensures |steps| > 0 ==> Last(steps).ptr in mem
  {
  }

  lemma EmptySide(t: Tree, s: seq<Ptr>)
    requires t.Leaf?
    ensures InOrder(t) + s == s && s + InOrder(t) == s
  {
  }

  /** jr_AVL_TreeGetPrevPtrFromPath. */
  method PrevFromPath(a: TreeObject, path: seq<Ptr>, ghost steps: seq<Crumb>, ghost t: Tree) returns (prev: Ptr)
    requires a.Valid() && EndsAt(a, path, steps, t)
    ensures prev == LastOf(Before(steps) + InOrder(t.left))
  {
    hide InOrder, RepPath, Rep, Before, After, Plug, NoDup;
    PathParts(steps, t);
    NodeFacts(a.mem, t);
    var i := |path| - 1;
    if a.mem[path[i]].left == 0 {
      assert steps[..i] == steps;
      ParentInMemory(a.mem, a.root, steps, path[i]);
      EmptySide(t.left, Before(steps));
      while i > 0 && a.mem[path[i - 1]].left == path[i]
        invariant 0 <= i < |path|
        invariant RepPath(a.mem, a.root, steps[..i], path[i]) && path[i] != 0
        invariant path[i] !in Around(steps[..i]) && NoDup(Around(steps[..i]))
        invariant i > 0 ==> path[i - 1] in a.mem
        invariant Before(steps[..i]) == Before(steps)
      {
        ghost var now := steps[..i];
        NeighbourAbove(a.mem, a.root, now, path[i]);
        assert Rest(now) == steps[..i - 1] && Last(now).ptr == path[i - 1];
        i := i - 1;
        ParentInMemory(a.mem, a.root, steps[..i], path[i]);
      }
      if i == 0 {
        assert steps[..0] == [];
        NothingAround();
        return 0;
      }
      NeighbourAbove(a.mem, a.root, steps[..i], path[i]);
      return path[i - 1];
    }
    prev := Outermost(a.mem, a.mem[path[i]].left, true, t.left);
    ghost var s := Before(steps) + InOrder(t.left);
    assert s[|s| - 1] == InOrder(t.left)[|InOrder(t.left)| - 1];
  }

  /** p is the element with the smallest key above k; 0 when there is none. */
  ghost predicate LeastAbove(s: seq<Ptr>, key: Ptr -> int, k: int, p: Ptr) {
    if p == 0 then forall x :: x in s ==> key(x) <= k
    else p in s && key(p) > k && forall x :: x in s && key(x) > k ==> key(p) <= key(x)
  }

  /** p is the element with the greatest key below k; 0 when there is none. */
  ghost predicate GreatestBelow(s: seq<Ptr>, key: Ptr -> int, k: int, p: Ptr) {
    if p == 0 then forall x :: x in s ==> key(x) >= k
    else p in s && key(p) < k && forall x :: x in s && key(x) < k ==> key(x) <= key(p)
  }

  lemma FirstIsLeastAbove(b: seq<Ptr>, z: seq<Ptr>, key: Ptr -> int, k: int)
    requires Sorted(b + z, key) && 0 !in z && AllAbove(z, key, k)
    requires forall i :: 0 <= i < |b| ==> key(b[i]) <= k
    ensures LeastAbove(b + z, key, k, FirstOf(z))
  {
    var s := b + z;
    assert forall i :: 0 <= i < |b| ==> s[i] == b[i];
    forall x | x in s && key(x) > k
      ensures z != [] && key(z[0]) <= key(x)
    {
      var i :| 0 <= i < |s| && s[i] == x;
      assert z != [] ==> s[|b|] == z[0];
    }
    if z != [] {
      assert s[|b|] == z[0];
    }
  }

  lemma LastIsGreatestBelow(b: seq<Ptr>, z: seq<Ptr>, key: Ptr -> int, k: int)
    requires Sorted(b + z, key) && 0 !in b && AllBelow(b, key, k)
    requires forall i :: 0 <= i < |z| ==> key(z[i]) >= k
    ensures GreatestBelow(b + z, key, k, LastOf(b))
  {
    var s := b + z;
    assert forall i :: |b| <= i < |s| ==> s[i] == z[i - |b|];
    forall x | x in s && key(x) < k
      ensures b != [] && key(x) <= key(b[|b| - 1])
    {
      var i :| 0 <= i < |s| && s[i] == x;
      assert b != [] ==> s[|b| - 1] == b[|b| - 1];
    }
    if b != [] {
      assert s[|b| - 1] == b[|b| - 1];
    }
  }

  /** The elements split at the key, when the search ended at node t. */
  lemma SplitAtKey(steps: seq<Crumb>, t: Tree, key: Ptr -> int, k: int)
    requires t.Node? && Sorted(InOrder(Plug(steps, t)), key)
    requires AllBelow(Before(steps), key, k) && AllAbove(After(steps), key, k)
    requires k < key(t.ptr) ==> t.left.Leaf?
    requires k > key(t.ptr) ==> t.right.Leaf?
    ensures var (l, r) := (Before(steps) + InOrder(t.left), InOrder(t.right) + After(steps));
            && InOrder(Plug(steps, t)) == l + [t.ptr] + r
            && AllBelow(l, key, k) && AllAbove(r, key, k)
  {
    var l, r := Before(steps) + InOrder(t.left), InOrder(t.right) + After(steps);
    ExtractedElements(steps, t);
    EmptySides(t);
    hide Plug, Before, After, InOrder, Sorted;
    AroundMiddle(l, t.ptr, r, key);
    if k < key(t.ptr) {
      assert l == Before(steps);
    } else if k > key(t.ptr) {
      assert r == After(steps);
    }
  }

  lemma AroundMiddle(l: seq<Ptr>, p: Ptr, r: seq<Ptr>, key: Ptr -> int)
    requires Sorted(l + [p] + r, key)
    ensures AllBelow(l, key, key(p)) && AllAbove(r, key, key(p))
  {
    var s := l + [p] + r;
    assert s[|l|] == p;
    assert forall i :: 0 <= i < |l| ==> l[i] == s[i];
    assert forall i :: 0 <= i < |r| ==> r[i] == s[|l| + 1 + i];
  }

  lemma EmptySides(t: Tree)
    requires t.Node?
    ensures t.left.Leaf? ==> InOrder(t.left) == []
    ensures t.right.Leaf? ==> InOrder(t.right) == []
  {
  }

  /** jr_AVL_TreeNextElementPtr, for a key that need not be in the tree. */
  method NextElement(a: TreeObject, k: int) returns (next: Ptr)
    requires a.Valid() && Sorted(a.Elements(), a.key)
    ensures LeastAbove(a.Elements(), a.key, k, next)
  {
    hide InOrder, RepPath, Rep, Before, After, Plug, NoDup;
    var path;
    ghost var steps, t;
    path, steps, t := FillSearchPath(a, k);
    if |path| == 0 {
      return 0;
    }
    SplitAtKey(steps, t, a.key, k);
    TreeInMemory(a.mem, a.root, a.tree);
    ghost var l, r := Before(steps) + InOrder(t.left), InOrder(t.right) + After(steps);
    assert forall x :: x in l || x == t.ptr || x in r ==> x in l + [t.ptr] + r;
    if k < a.key(path[|path| - 1]) {
      next := path[|path| - 1];
      assert l + [t.ptr] + r == l + ([t.ptr] + r);
      FirstIsLeastAbove(l, [t.ptr] + r, a.key, k);
    } else {
      next := NextFromPath(a, path, steps, t);
      FirstIsLeastAbove(l + [t.ptr], r, a.key, k);
    }
  }

  /** jr_AVL_TreePrevElementPtr. */
  method PrevElement(a: TreeObject, k: int) returns (prev: Ptr)
    requires a.Valid() && Sorted(a.Elements(), a.key)
    ensures GreatestBelow(a.Elements(), a.key, k, prev)
  {
    hide InOrder, RepPath, Rep, Before, After, Plug, NoDup;
    var path;
    ghost var steps, t;
    path, steps, t := FillSearchPath(a, k);
    if |path| == 0 {
      return 0;
    }
    SplitAtKey(steps, t, a.key, k);
    TreeInMemory(a.mem, a.root, a.tree);
    ghost var l, r := Before(steps) + InOrder(t.left), InOrder(t.right) + After(steps);
    assert forall x :: x in l || x == t.ptr || x in r ==> x in l + [t.ptr] + r;
    if k > a.key(path[|path| - 1]) {
      prev := path[|path| - 1];
      LastIsGreatestBelow(l + [t.ptr], r, a.key, k);
    } else {
      prev := PrevFromPath(a, path, steps, t);
      assert l + [t.ptr] + r == l + ([t.ptr] + r);
      LastIsGreatestBelow(l, [t.ptr] + r, a.key, k);
    }
  }

  /** In a sorted sequence the least key above that of an element belongs to the
      element after it, and the greatest below to the one before it. */
  lemma NeighbourByKey(s: seq<Ptr>, key: Ptr -> int, i: nat, p: Ptr)
    requires Sorted(s, key) && i < |s| && 0 !in s
    ensures LeastAbove(s, key, key(s[i]), p) <==> p == if i + 1 < |s| then s[i + 1] else 0
    ensures GreatestBelow(s, key, key(s[i]), p) <==> p == if i > 0 then s[i - 1] else 0
  {
    var k := key(s[i]);
    if i + 1 < |s| {
      assert s[i + 1] in s && key(s[i + 1]) > k;
    }
    if i > 0 {
      assert s[i - 1] in s && key(s[i - 1]) < k;
    }
    forall x | x in s
      ensures key(x) > k ==> i + 1 < |s| && key(s[i + 1]) <= key(x) && (key(s[i + 1]) == key(x) ==> x == s[i + 1])
      ensures key(x) < k ==> i > 0 && key(s[i - 1]) >= key(x) && (key(s[i - 1]) == key(x) ==> x == s[i - 1])
    {
      var j :| 0 <= j < |s| && s[j] == x;
    }
  }

  /** The loop of jr_AVL_TreeForEachElementPtr. */
  method ForEachElement(a: TreeObject) returns (visited: seq<Ptr>)
    requires a.Valid() && Sorted(a.Elements(), a.key)
    ensures visited == a.Elements()
  {
    hide InOrder, Rep, NoDup;
    visited := [];
    TreeInMemory(a.mem, a.root, a.tree);
    var p := SmallestElement(a);
    ghost var s := a.Elements();
    while p != 0
      invariant |visited| <= |s| && visited == s[..|visited|]
      invariant p == if |visited| < |s| then s[|visited|] else 0
      decreases |s| - |visited|
    {
      ghost var i := |visited|;
      visited := visited + [p];
      p := NextElement(a, a.key(p));
      NeighbourByKey(s, a.key, i, p);
      assert i + 1 < |s| ==> s[i + 1] in s;
    }
    assert s[..|s|] == s;
  }

  /** The loop of jr_AVL_TreeForEachElementPtrRev. */
  method ForEachElementRev(a: TreeObject) returns (visited: seq<Ptr>)
    requires a.Valid() && Sorted(a.Elements(), a.key)
    ensures |visited| == |a.Elements()|
    ensures forall i :: 0 <= i < |visited| ==> visited[i] == a.Elements()[|visited| - 1 - i]
  {
    hide InOrder, Rep, NoDup;
    visited := [];
    TreeInMemory(a.mem, a.root, a.tree);
    var p := GreatestElement(a);
    ghost var s := a.Elements();
    while p != 0
      invariant |visited| <= |s|
      invariant forall i :: 0 <= i < |visited| ==> visited[i] == s[|s| - 1 - i]
      invariant p == if |visited| < |s| then s[|s| - 1 - |visited|] else 0
      decreases |s| - |visited|
    {
      ghost var i := |s| - 1 - |visited|;
      visited := visited + [p];
      p := PrevElement(a, a.key(p));
      NeighbourByKey(s, a.key, i, p);
    }
  }
}
