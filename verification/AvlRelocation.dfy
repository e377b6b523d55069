/** A tree threaded through the elements of an array: the repair of its child
    pointers when an element moves, finding the parent by search, and when the
    whole array does. */
module AvlRelocation {
  import opened Sequences
  import opened AvlShape
  import opened AvlExtract
  import opened AvlMemory
  import opened AvlRotate
  import opened AvlSpine
  import opened AvlTree
  import opened AvlPath
  import Links = Relinking
  import Steps = RelocationSteps

  // ----- trees with other pointers -----

  /** The same tree with every pointer x replaced by f(x). */
  function MapTree(t: Tree, f: Ptr -> Ptr): Tree {
    match t
    case Leaf => Leaf
    case Node(l, p, h, s, r) => Node(MapTree(l, f), f(p), h, s, MapTree(r, f))
  }

  function Renaming(x: Ptr, y: Ptr): Ptr -> Ptr {
    (p: Ptr) => if p == x then y else p
  }

  function MapSeq(s: seq<Ptr>, f: Ptr -> Ptr): (r: seq<Ptr>)
    ensures |r| == |s| && forall i :: 0 <= i < |s| ==> r[i] == f(s[i])
  {
    seq(|s|, i requires 0 <= i < |s| => f(s[i]))
  }

  lemma {:induction false} MapTreeElements(t: Tree, f: Ptr -> Ptr)
    ensures InOrder(MapTree(t, f)) == MapSeq(InOrder(t), f)
    ensures |InOrder(MapTree(t, f))| == |InOrder(t)|
    ensures SizesExact(t) ==> SizesExact(MapTree(t, f))
    ensures Weak(t) ==> Weak(MapTree(t, f))
    ensures H(MapTree(t, f)) == H(t) && MapTree(t, f).Leaf? == t.Leaf?
  {
    if t.Node? {
      MapTreeElements(t.left, f);
      MapTreeElements(t.right, f);
      MapSeqNode(InOrder(t.left), t.ptr, InOrder(t.right), f);
    }
  }

  lemma MapSeqNode(l: seq<Ptr>, p: Ptr, r: seq<Ptr>, f: Ptr -> Ptr)
    ensures MapSeq(l + [p] + r, f) == MapSeq(l, f) + [f(p)] + MapSeq(r, f)
  {
  }

  /** Balance is not a matter of pointers. */
  lemma {:induction false} MapTreeAvl(t: Tree, f: Ptr -> Ptr)
    ensures Avl(MapTree(t, f)) == Avl(t) && H(MapTree(t, f)) == H(t)
  {
    if t.Node? {
      MapTreeAvl(t.left, f);
      MapTreeAvl(t.right, f);
    }
  }

  lemma {:induction false} MapTreeIdentity(t: Tree, f: Ptr -> Ptr)
    requires forall x :: x in InOrder(t) ==> f(x) == x
    ensures MapTree(t, f) == t
  {
    if t.Node? {
      InNode(t);
      MapTreeIdentity(t.left, f);
      MapTreeIdentity(t.right, f);
    }
  }

  lemma {:induction false} MapTreeTwice(t: Tree, f: Ptr -> Ptr, g: Ptr -> Ptr, h: Ptr -> Ptr)
    requires forall x :: x in InOrder(t) ==> g(f(x)) == h(x)
    ensures MapTree(MapTree(t, f), g) == MapTree(t, h)
  {
    if t.Node? {
      InNode(t);
      MapTreeTwice(t.left, f, g, h);
      MapTreeTwice(t.right, f, g, h);
    }
  }

  /** Renaming the root of a subtree, seen from the whole tree. */
  lemma {:induction false} RenameAt(path: seq<Crumb>, t: Tree, y: Ptr)
    requires t.Node? && NoDup(InOrder(Plug(path, t)))
    ensures MapTree(Plug(path, t), Renaming(t.ptr, y)) == Plug(path, t.(ptr := y))
    decreases |path|
  {
    var f := Renaming(t.ptr, y);
    PathParts(path, t);
    NodeParts(t);
    MapTreeIdentity(t.left, f);
    MapTreeIdentity(t.right, f);
    RenameAbove(path, t, t.(ptr := y), t.ptr, y);
  }

  lemma {:induction false} RenameAbove(path: seq<Crumb>, t: Tree, t2: Tree, x: Ptr, y: Ptr)
    requires x !in Around(path) && MapTree(t, Renaming(x, y)) == t2
    ensures MapTree(Plug(path, t), Renaming(x, y)) == Plug(path, t2)
    decreases |path|
  {
    if |path| > 0 {
      var c := Last(path);
      AroundRest(path);
      MapTreeIdentity(Sibling(c), Renaming(x, y));
      RenameAbove(Rest(path), Fill(c, t), Fill(c, t2), x, y);
    }
  }

  // ----- one element moved -----

  /** The element at x has been copied to y, where it has the same key, and
      nothing points to y yet. */
  ghost predicate Copied(a: TreeObject, x: Ptr, y: Ptr)
    reads a
  {
    && x in a.Elements() && y !in a.Elements() && y != 0 && x in a.mem && y in a.mem
    && a.mem[y] == a.mem[x] && a.key(y) == a.key(x)
  }

  lemma RootRenamed(mem: Memory, p: Ptr, t: Tree, y: Ptr)
    requires t.Node? && Rep(mem, p, t) && p in mem && y in mem && mem[y] == mem[p] && y != 0
    ensures Rep(mem, y, t.(ptr := y))
  {
  }

  lemma NoPath(t: Tree, y: Ptr)
    requires t.Node?
    ensures Plug([], t) == t && Plug([], t.(ptr := y)) == t.(ptr := y)
  {
  }

  /** Renaming an element to a fresh address with the same key. */
  lemma RenamedValid(t: Tree, x: Ptr, y: Ptr, key: Ptr -> int)
    requires NoDup(InOrder(t)) && Sorted(InOrder(t), key) && y !in InOrder(t) && key(x) == key(y) && x != y
    ensures var t2 := MapTree(t, Renaming(x, y));
            && NoDup(InOrder(t2)) && Sorted(InOrder(t2), key) && x !in InOrder(t2)
            && (SizesExact(t) ==> SizesExact(t2)) && (Weak(t) ==> Weak(t2))
  {
    MapTreeElements(t, Renaming(x, y));
    hide MapTree, InOrder, SizesExact, Weak;
    var s, s2 := InOrder(t), InOrder(MapTree(t, Renaming(x, y)));
    assert forall i :: 0 <= i < |s| ==> s[i] in s && s2[i] == (if s[i] == x then y else s[i]) && key(s2[i]) == key(s[i]);
  }

  /** Where a search for the key of an element of the tree ends. */
  lemma FoundByKey(a: TreeObject, steps: seq<Crumb>, t: Tree, x: Ptr)
    requires Sorted(a.Elements(), a.key) && x in a.Elements() && t.Node? && Plug(steps, t) == a.tree
    requires AllBelow(Before(steps), a.key, a.key(x)) && AllAbove(After(steps), a.key, a.key(x))
    requires a.key(x) < a.key(t.ptr) ==> t.left.Leaf?
    requires a.key(x) > a.key(t.ptr) ==> t.right.Leaf?
    ensures t.ptr == x
  {
    SplitAtKey(steps, t, a.key, a.key(x));
    hide *;
    OnlyMiddle(Before(steps) + InOrder(t.left), t.ptr, InOrder(t.right) + After(steps), a.key, x);
  }

  lemma OnlyMiddle(l: seq<Ptr>, p: Ptr, r: seq<Ptr>, key: Ptr -> int, x: Ptr)
    requires x in l + [p] + r && AllBelow(l, key, key(x)) && AllAbove(r, key, key(x))
    ensures p == x
  {
  }

  lemma StepsNonEmpty(a: TreeObject, path: seq<Ptr>, steps: seq<Crumb>, t: Tree)
    requires EndsAt(a, path, steps, t)
    ensures |steps| == |path| - 1
    ensures |path| > 1 ==> path[|path| - 2] == Last(steps).ptr
  {
  }

  lemma NoParent(a: TreeObject, path: seq<Ptr>, steps: seq<Crumb>, t: Tree)
    requires EndsAt(a, path, steps, t) && |path| <= 1
    ensures a.root == t.ptr
  {
  }

  lemma EndsIn(a: TreeObject, path: seq<Ptr>, steps: seq<Crumb>, t: Tree)
    requires path != [] ==> EndsAt(a, path, steps, t)
    ensures path != [] ==> path[|path| - 1] in a.Elements()
  {
    if path != [] {
      TreeObject.AroundIn(steps, t);
      InNode(t);
    }
  }

  /** The parent's pointer made to lead to the moved element. */
  lemma MovedBelow(mem: Memory, root: Ptr, steps: seq<Crumb>, t: Tree, y: Ptr)
    requires t.Node? && |steps| > 0 && RepPath(mem, root, steps, t.ptr) && Rep(mem, t.ptr, t)
    requires NoDup(InOrder(Plug(steps, t))) && y !in InOrder(Plug(steps, t))
    requires y != 0 && y in mem && t.ptr in mem && mem[y] == mem[t.ptr]
    ensures Last(steps).ptr in mem
    ensures RepPath(Linked(mem, steps, y), root, steps, y) && Rep(Linked(mem, steps, y), y, t.(ptr := y))
  {
    hide InOrder, Around, RepPath, Plug, Before, After;
    PathParts(steps, t);
    TreeObject.AroundIn(steps, t);
    AroundRest(steps);
    Redirect(mem, root, steps, t.ptr, y);
    var mem2 := Linked(mem, steps, y);
    ChildReps(mem, t);
    InNode(t);
    TreeInMemory(mem, t.ptr, t);
    RepFrame(mem, mem2, mem[y].left, t.left);
    RepFrame(mem, mem2, mem[y].right, t.right);
  }

  /** jr_AVL_TreeTransformPrefix after the single move of an element: the tree is
      the same with the new address in place of the old one. */
  method TransformMoved(a: TreeObject, el: Ptr, magnitude: int, whichWay: int, ghost before: Ptr)
    requires a.Valid() && Sorted(a.Elements(), a.key)
    requires el in a.mem && Steps.TransformPtr(el, magnitude, -whichWay) == before
    requires if a.mem[el].height < 0 then before !in a.Elements() else Copied(a, before, el)
    modifies a`root, a`mem, a`tree
    ensures a.Valid() && a.tree == MapTree(old(a.tree), Renaming(before, el))
    ensures Confined(old(a.mem), a.mem, old(a.Elements()))
  {
    hide InOrder, Around, RepPath, Rep, NoDup, Weak, SizesExact, Plug, Before, After, MapTree, Sorted;
    if a.mem[el].height < 0 {
      MapTreeIdentity(a.tree, Renaming(before, el));
      return;
    }
    var oldEl := Steps.TransformPtr(el, magnitude, -whichWay);
    ghost var wasRoot := oldEl == a.root;
    if oldEl == a.root {
      RootFields(a.mem, a.root, a.tree);
      TreeInMemory(a.mem, a.root, a.tree);
      NoPath(a.tree, el);
      RootRenamed(a.mem, a.root, a.tree, el);
      RenameAt([], a.tree, el);
      RenamedValid(a.tree, before, el, a.key);
      a.root := el;
      a.tree := MapTree(a.tree, Renaming(before, el));
    }
    var path;
    ghost var steps, t;
    path, steps, t := FillSearchPath(a, a.key(el));
    EndsIn(a, path, steps, t);
    if !wasRoot {
      FoundByKey(a, steps, t, before);
    }
    if |path| > 1 && oldEl == path[|path| - 1] {
      var prev := path[|path| - 2];
      PathParts(steps, t);
      InNode(t);
      TreeInMemory(a.mem, a.root, a.tree);
      StepsNonEmpty(a, path, steps, t);
      ParentSides(a.mem, a.root, steps, before);
      MovedBelow(a.mem, a.root, steps, t, el);
      LastAroundIn(steps, t);
      if a.mem[prev].left == oldEl {
        a.mem := a.mem[prev := a.mem[prev].(left := el)];
      } else if a.mem[prev].right == oldEl {
        a.mem := a.mem[prev := a.mem[prev].(right := el)];
      }
      RepPlug(a.mem, a.root, steps, el, t.(ptr := el));
      RenameAt(steps, t, el);
      RenamedValid(a.tree, before, el, a.key);
      a.tree := Plug(steps, t.(ptr := el));
    } else if !wasRoot {
      NoParent(a, path, steps, t);
      assert false;
    }
  }

  lemma LastAroundIn(steps: seq<Crumb>, t: Tree)
    requires |steps| > 0
    ensures Last(steps).ptr in InOrder(Plug(steps, t))
  {
    AroundRest(steps);
    TreeObject.AroundIn(steps, t);
  }

  // ----- the elements of an array -----

  /** The address of a slot. */
  function At(g: Links.Space, s: nat): (p: Ptr)
    requires g.base > 0 && g.step > 0
    ensures p == Links.Addr(g, s) && p > 0
  {
    Links.AddrFacts(g, s, s);
    Links.Addr(g, s)
  }

  ghost predicate IsSlot(g: Links.Space, live: set<nat>, x: Ptr)
    requires g.base > 0 && g.step > 0
  {
    exists s: nat :: s in live && At(g, s) == x
  }

  /** All elements of the tree are live slots of the array, and the live slots
      that are not in the tree say so by a negative height. */
  ghost predicate Holds(a: TreeObject, g: Links.Space, live: set<nat>)
    reads a
  {
    && g.base > 0 && g.step > 0 && a.Valid() && Sorted(a.Elements(), a.key)
    && (forall s: nat :: s in live ==> At(g, s) in a.mem && (At(g, s) in a.Elements() || a.mem[At(g, s)].height < 0))
    && AllSlots(g, live, a.Elements())
  }

  ghost predicate AllSlots(g: Links.Space, live: set<nat>, elements: seq<Ptr>)
    requires g.base > 0 && g.step > 0
  {
    forall x :: x in elements ==> IsSlot(g, live, x)
  }

  lemma {:induction false} MemberHeight(mem: Memory, p: Ptr, t: Tree, x: Ptr)
    requires Rep(mem, p, t) && Weak(t) && x in InOrder(t)
    ensures x in mem && mem[x].height >= 0
    decreases t
  {
    if x in InOrder(t.left) {
      MemberHeight(mem, mem[p].left, t.left, x);
    } else if x in InOrder(t.right) {
      MemberHeight(mem, mem[p].right, t.right, x);
    }
  }

  function Rekeyed(key: Ptr -> int, x: Ptr, y: Ptr): Ptr -> int {
    (p: Ptr) => if p == y then key(x) else key(p)
  }

  /** One element of the array copied to a free slot, and the tree repaired. */
  method MoveElement(a: TreeObject, g: Links.Space, src: nat, to: nat, magnitude: int, whichWay: int, ghost live: set<nat>)
    requires Holds(a, g, live) && src in live && to !in live && At(g, to) in a.mem
    requires Steps.TransformPtr(At(g, to), magnitude, -whichWay) == At(g, src)
    modifies a
    ensures Holds(a, g, live - {src} + {to}) && a.mem.Keys == old(a.mem).Keys
    ensures a.tree == MapTree(old(a.tree), Renaming(At(g, src), At(g, to)))
    ensures a.key == Rekeyed(old(a.key), At(g, src), At(g, to))
  {
    hide InOrder, Rep, NoDup, Weak, SizesExact, MapTree, Sorted, At, IsSlot;
    ghost var was, elements := a.mem, a.Elements();
    var x, y := At(g, src), At(g, to);
    FreeSlot(a, g, src, to, live);
    TreeInMemory(a.mem, a.root, a.tree);
    if x in elements {
      MemberHeight(a.mem, a.root, a.tree, x);
    }
    a.mem := a.mem[y := a.mem[x]];
    a.key := Rekeyed(a.key, x, y);
    RepFrame(was, a.mem, a.root, a.tree);
    SortedRekeyed(elements, old(a.key), x, y);
    TransformMoved(a, y, magnitude, whichWay, x);
    RenamedElements(old(a.tree), x, y);
    RenamedSorted(old(a.tree), x, y, a.key);
    SlotsMoved(a, g, src, to, live, was, elements);
  }

  lemma FreeSlot(a: TreeObject, g: Links.Space, src: nat, to: nat, live: set<nat>)
    requires Holds(a, g, live) && to !in live && src in live
    ensures At(g, to) !in a.Elements() && At(g, src) != At(g, to)
  {
    hide InOrder, Rep, NoDup, Weak, SizesExact, Sorted;
    NotInTree(a, g, to, live);
    Links.AddrFacts(g, src, to);
  }

  lemma SortedRekeyed(s: seq<Ptr>, key: Ptr -> int, x: Ptr, y: Ptr)
    requires Sorted(s, key) && y !in s
    ensures Sorted(s, Rekeyed(key, x, y))
  {
    assert forall i :: 0 <= i < |s| ==> s[i] in s;
  }

  lemma RenamedElements(t: Tree, x: Ptr, y: Ptr)
    ensures var s, s2 := InOrder(t), InOrder(MapTree(t, Renaming(x, y)));
            forall z :: z in s2 <==> (z in s && z != x) || (z == y && (x in s || y in s))
  {
    MapTreeElements(t, Renaming(x, y));
    hide MapTree, InOrder;
    var s, s2 := InOrder(t), InOrder(MapTree(t, Renaming(x, y)));
    assert forall i :: 0 <= i < |s| ==> s2[i] == if s[i] == x then y else s[i];
    forall z | z in s && z != x
      ensures z in s2
    {
      var i :| 0 <= i < |s| && s[i] == z;
      assert s2[i] == z;
    }
    if x in s {
      var i :| 0 <= i < |s| && s[i] == x;
      assert s2[i] == y;
    }
  }

  lemma RenamedSorted(t: Tree, x: Ptr, y: Ptr, key: Ptr -> int)
    requires Sorted(InOrder(t), key) && key(x) == key(y)
    ensures Sorted(InOrder(MapTree(t, Renaming(x, y))), key)
  {
    MapTreeElements(t, Renaming(x, y));
    hide MapTree, InOrder;
    var s, s2 := InOrder(t), InOrder(MapTree(t, Renaming(x, y)));
    assert forall i :: 0 <= i < |s| ==> key(s2[i]) == key(s[i]);
  }

  /** Which slots are live, and which of them are in the tree, after the move. */
  lemma SlotsMoved(a: TreeObject, g: Links.Space, src: nat, to: nat, live: set<nat>, was: Memory, elements: seq<Ptr>)
    requires g.base > 0 && g.step > 0 && src in live && to !in live && At(g, to) !in elements
    requires forall s: nat :: s in live ==> At(g, s) in was && (At(g, s) in elements || was[At(g, s)].height < 0)
    requires AllSlots(g, live, elements)
    requires At(g, to) in was && Confined(was[At(g, to) := was[At(g, src)]], a.mem, elements)
    requires forall z :: z in a.Elements() <==> (z in elements && z != At(g, src)) || (z == At(g, to) && (At(g, src) in elements || At(g, to) in elements))
    ensures var live2 := live - {src} + {to};
            && (forall s: nat :: s in live2 ==> At(g, s) in a.mem && (At(g, s) in a.Elements() || a.mem[At(g, s)].height < 0))
            && AllSlots(g, live2, a.Elements())
  {
    hide InOrder, At;
    var live2 := live - {src} + {to};
    forall s: nat | s in live2
      ensures At(g, s) in a.mem && (At(g, s) in a.Elements() || a.mem[At(g, s)].height < 0)
    {
      Links.AddrFacts(g, s, to);
      Links.AddrFacts(g, s, src);
    }
    forall x | x in a.Elements()
      ensures IsSlot(g, live2, x)
    {
      if x == At(g, to) {
        assert to in live2;
      } else {
        var s: nat :| s in live && At(g, s) == x;
        assert s in live2;
      }
    }
  }

  function WithKey(key: Ptr -> int, x: Ptr, v: int): Ptr -> int {
    (p: Ptr) => if p == x then v else key(p)
  }

  /** jr_AVL_TreeMakeNullElement, for a new element of the array with key v. */
  method MakeNullElement(a: TreeObject, g: Links.Space, s: nat, v: int, ghost live: set<nat>)
    requires Holds(a, g, live) && s !in live && At(g, s) in a.mem
    modifies a`mem, a`key
    ensures Holds(a, g, live + {s}) && a.mem.Keys == old(a.mem).Keys
    ensures a.mem[At(g, s)] == old(a.mem)[At(g, s)].(left := 0, right := 0, height := -1) && a.key == WithKey(old(a.key), At(g, s), v)
  {
    hide InOrder, Rep, NoDup, Weak, SizesExact, Sorted, At, IsSlot;
    ghost var was, key := a.mem, a.key;
    var x := At(g, s);
    NotInTree(a, g, s, live);
    TreeInMemory(a.mem, a.root, a.tree);
    a.mem := a.mem[x := a.mem[x].(left := 0, right := 0, height := -1)];
    a.key := WithKey(a.key, x, v);
    RepFrame(was, a.mem, a.root, a.tree);
    SortedWithKey(a.Elements(), key, x, v);
    MoreSlots(a, g, live, s, was);
  }

  lemma NotInTree(a: TreeObject, g: Links.Space, s: nat, live: set<nat>)
    requires Holds(a, g, live) && s !in live
    ensures At(g, s) !in a.Elements()
  {
    hide InOrder, Rep, NoDup, Weak, SizesExact, Sorted;
    forall t: nat | t in live
      ensures At(g, t) != At(g, s)
    {
      Links.AddrFacts(g, t, s);
    }
  }

  lemma SortedWithKey(s: seq<Ptr>, key: Ptr -> int, x: Ptr, v: int)
    requires Sorted(s, key) && x !in s
    ensures Sorted(s, WithKey(key, x, v))
  {
    assert forall i :: 0 <= i < |s| ==> s[i] in s;
  }

  lemma MoreSlots(a: TreeObject, g: Links.Space, live: set<nat>, s: nat, was: Memory)
    requires g.base > 0 && g.step > 0 && AllSlots(g, live, a.Elements())
    requires forall t: nat :: t in live ==> At(g, t) in was && (At(g, t) in a.Elements() || was[At(g, t)].height < 0)
    requires At(g, s) in was && a.mem == was[At(g, s) := was[At(g, s)].(left := 0, right := 0, height := -1)]
    ensures AllSlots(g, live + {s}, a.Elements())
    ensures forall t: nat :: t in live + {s} ==> At(g, t) in a.mem && (At(g, t) in a.Elements() || a.mem[At(g, t)].height < 0)
  {
    hide InOrder, At;
    forall x | x in a.Elements()
      ensures IsSlot(g, live + {s}, x)
    {
      var t: nat :| t in live && At(g, t) == x;
      assert t in live + {s};
    }
  }

  /** The tree with one more of the live slots, which was a null element. */
  lemma HoldsInserted(a: TreeObject, g: Links.Space, live: set<nat>, at: nat, was: Memory, elements: seq<Ptr>)
    requires g.base > 0 && g.step > 0 && at in live && a.Valid() && Sorted(a.Elements(), a.key)
    requires forall s: nat :: s in live ==> At(g, s) in was && (At(g, s) in elements || was[At(g, s)].height < 0)
    requires AllSlots(g, live, elements) && Confined(was, a.mem, elements + [At(g, at)])
    requires forall x :: x in a.Elements() <==> x in elements || x == At(g, at)
    ensures Holds(a, g, live)
  {
    hide InOrder, Rep, NoDup, Weak, SizesExact, Sorted, At;
    forall x | x in a.Elements()
      ensures IsSlot(g, live, x)
    {
      if x in elements {
        assert IsSlot(g, live, x);
      }
    }
  }

  /** The tree with one element less, which has become a null element. */
  lemma HoldsExtracted(a: TreeObject, g: Links.Space, live: set<nat>, deleted: Ptr, was: Memory, elements: seq<Ptr>)
    requires g.base > 0 && g.step > 0 && a.Valid() && Sorted(a.Elements(), a.key)
    requires forall s: nat :: s in live ==> At(g, s) in was && (At(g, s) in elements || was[At(g, s)].height < 0)
    requires AllSlots(g, live, elements) && Confined(was, a.mem, elements)
    requires forall x :: x in elements <==> x in a.Elements() || x == deleted
    requires deleted in a.mem && a.mem[deleted].height < 0
    ensures Holds(a, g, live)
  {
    hide InOrder, Rep, NoDup, Weak, SizesExact, Sorted, At;
    forall x | x in a.Elements()
      ensures IsSlot(g, live, x)
    {
      assert x in elements && IsSlot(g, live, x);
    }
  }

  lemma HoldsAgain(a: TreeObject, g: Links.Space, live: set<nat>, was: Memory, elements: seq<Ptr>)
    requires g.base > 0 && g.step > 0 && a.Valid() && Sorted(a.Elements(), a.key) && a.mem == was && a.Elements() == elements
    requires forall s: nat :: s in live ==> At(g, s) in was && (At(g, s) in elements || was[At(g, s)].height < 0)
    requires AllSlots(g, live, elements)
    ensures Holds(a, g, live)
  {
    hide InOrder, Rep, NoDup, Weak, SizesExact, Sorted, At, IsSlot;
  }

  // ----- shifting -----

  /** Addresses from slot c on, one slot higher. */
  function RaisedFrom(g: Links.Space, c: nat): Ptr -> Ptr
    requires g.base > 0 && g.step > 0
  {
    (p: Ptr) => if p >= At(g, c) then p + g.step else p
  }

  /** Addresses from slot e on and below slot m, k slots lower. */
  function LoweredFrom(g: Links.Space, e: nat, k: nat, m: nat): Ptr -> Ptr
    requires g.base > 0 && g.step > 0 && k <= e
  {
    (p: Ptr) => if At(g, e) <= p < At(g, m) && p >= k * g.step then p - k * g.step else p
  }

  lemma SlotsInOrder(g: Links.Space, s: nat, t: nat)
    requires g.base > 0 && g.step > 0
    ensures At(g, s) < At(g, t) <==> s < t
  {
    if s < t {
      Links.LaterIsHigher(g, s, t);
    } else if t < s {
      Links.LaterIsHigher(g, t, s);
    }
  }

  lemma RaiseStep(g: Links.Space, c: nat, x: Ptr, live: set<nat>)
    requires g.base > 0 && g.step > 0 && c > 0 && IsSlot(g, live, x)
    ensures Renaming(At(g, c - 1), At(g, c))(RaisedFrom(g, c)(x)) == RaisedFrom(g, c - 1)(x)
  {
    var s: nat :| s in live && At(g, s) == x;
    SlotsInOrder(g, s, c);
    SlotsInOrder(g, s, c - 1);
    SlotsInOrder(g, c - 1, s + 1);
    Links.AddrFacts(g, c - 1, c);
    Links.AddrFacts(g, s, c - 1);
    Links.AddrFacts(g, s, c);
  }

  /** Shifting the elements from slot i on up by one slot leaves the same tree,
      with the addresses of the shifted elements renumbered. */
  method ShiftUp(a: TreeObject, g: Links.Space, i: nat, n: nat)
    requires g.base > 0 && g.step > 0 && Holds(a, g, Below(n)) && i <= n && At(g, n) in a.mem
    modifies a
    ensures Holds(a, g, Below(n + 1) - {i})
    ensures a.tree == MapTree(old(a.tree), RaisedFrom(g, i))
    ensures KeysKept(old(a.Elements()), old(a.key), a.key, RaisedFrom(g, i))
  {
    hide *;
    ghost var tree, elements, key := a.tree, a.Elements(), a.key;
    ghost var all := Below(n);
    NothingShifted(a, g, n);
    var curr := n;
    while curr > i
      invariant i <= curr <= n && At(g, curr) in a.mem
      invariant Holds(a, g, Below(n + 1) - {curr})
      invariant a.tree == MapTree(tree, RaisedFrom(g, curr))
      invariant KeysKept(elements, key, a.key, RaisedFrom(g, curr))
    {
      ghost var live := Below(n + 1) - {curr};
      ghost var keyWas := a.key;
      Steps.GapStep(n, curr);
      Steps.UpSlot(g, curr);
      SlotInMemory(a, g, curr - 1, live);
      MoveElement(a, g, curr - 1, curr, g.step, 1, live);
      RaiseSteps(tree, elements, g, curr, all, key, keyWas);
      curr := curr - 1;
    }
  }

  lemma SlotInMemory(a: TreeObject, g: Links.Space, s: nat, live: set<nat>)
    requires g.base > 0 && g.step > 0 && Holds(a, g, live) && s in live
    ensures At(g, s) in a.mem
  {
  }

  /** Every element has the key it had before the renaming. */
  ghost predicate KeysKept(elements: seq<Ptr>, key: Ptr -> int, key2: Ptr -> int, f: Ptr -> Ptr) {
    forall x :: x in elements ==> key2(f(x)) == key(x)
  }

  lemma RaiseSteps(tree: Tree, elements: seq<Ptr>, g: Links.Space, c: nat, live: set<nat>, key: Ptr -> int, key1: Ptr -> int)
    requires g.base > 0 && g.step > 0 && c > 0 && elements == InOrder(tree)
    requires AllSlots(g, live, elements)
    requires KeysKept(elements, key, key1, RaisedFrom(g, c))
    ensures MapTree(MapTree(tree, RaisedFrom(g, c)), Renaming(At(g, c - 1), At(g, c))) == MapTree(tree, RaisedFrom(g, c - 1))
    ensures KeysKept(elements, key, Rekeyed(key1, At(g, c - 1), At(g, c)), RaisedFrom(g, c - 1))
  {
    hide InOrder, MapTree, RaisedFrom, At, IsSlot;
    forall x | x in elements
      ensures Renaming(At(g, c - 1), At(g, c))(RaisedFrom(g, c)(x)) == RaisedFrom(g, c - 1)(x)
      ensures RaisedFrom(g, c)(x) != At(g, c)
    {
      RaiseStep(g, c, x, live);
      RaisedPast(g, c, x, live);
    }
    MapTreeTwice(tree, RaisedFrom(g, c), Renaming(At(g, c - 1), At(g, c)), RaisedFrom(g, c - 1));
  }

  lemma RaisedNothing(g: Links.Space, n: nat, elements: seq<Ptr>)
    requires g.base > 0 && g.step > 0 && AllSlots(g, Below(n), elements)
    ensures forall x :: x in elements ==> RaisedFrom(g, n)(x) == x
  {
    forall x | x in elements
      ensures RaisedFrom(g, n)(x) == x
    {
      var s: nat :| s in Below(n) && At(g, s) == x;
      SlotsInOrder(g, s, n);
    }
  }

  lemma NothingShifted(a: TreeObject, g: Links.Space, n: nat)
    requires g.base > 0 && g.step > 0 && Holds(a, g, Below(n))
    ensures Below(n + 1) - {n} == Below(n)
    ensures AllSlots(g, Below(n), a.Elements()) && a.Elements() == InOrder(a.tree)
    ensures KeysKept(a.Elements(), a.key, a.key, RaisedFrom(g, n))
    ensures MapTree(a.tree, RaisedFrom(g, n)) == a.tree
  {
    RaisedNothing(g, n, a.Elements());
    hide InOrder, At;
    MapTreeIdentity(a.tree, RaisedFrom(g, n));
  }

  /** No raised address is that of the free slot. */
  lemma RaisedPast(g: Links.Space, c: nat, x: Ptr, live: set<nat>)
    requires g.base > 0 && g.step > 0 && IsSlot(g, live, x)
    ensures RaisedFrom(g, c)(x) != At(g, c)
  {
    var s: nat :| s in live && At(g, s) == x;
    SlotsInOrder(g, s, c);
    Links.AddrFacts(g, s, c);
  }

  lemma LowerStep(g: Links.Space, e: nat, k: nat, m: nat, x: Ptr, live: set<nat>)
    requires g.base > 0 && g.step > 0 && 0 < k <= e <= m && IsSlot(g, live, x)
    requires forall s: nat :: s in live ==> s < e - k || e <= s
    ensures Renaming(At(g, m), At(g, m - k))(LoweredFrom(g, e, k, m)(x)) == LoweredFrom(g, e, k, m + 1)(x)
    ensures LoweredFrom(g, e, k, m)(x) != At(g, m - k)
  {
    var s: nat :| s in live && At(g, s) == x;
    SlotsInOrder(g, s, e);
    SlotsInOrder(g, s, m);
    SlotsInOrder(g, s, m + 1);
    SlotsInOrder(g, s, m - k);
    if s >= e {
      Steps.Distance(g, s, k);
      SlotsInOrder(g, s - k, m);
      SlotsInOrder(g, s - k, m - k);
      Links.AddrFacts(g, s - k, m - k);
    }
    Links.AddrFacts(g, s, m);
    Links.AddrFacts(g, s, m - k);
  }

  lemma LowerSteps(tree: Tree, elements: seq<Ptr>, g: Links.Space, e: nat, k: nat, m: nat, live: set<nat>, key: Ptr -> int, key1: Ptr -> int)
    requires g.base > 0 && g.step > 0 && 0 < k <= e <= m && elements == InOrder(tree)
    requires AllSlots(g, live, elements)
    requires forall s: nat :: s in live ==> s < e - k || e <= s
    requires KeysKept(elements, key, key1, LoweredFrom(g, e, k, m))
    ensures MapTree(MapTree(tree, LoweredFrom(g, e, k, m)), Renaming(At(g, m), At(g, m - k))) == MapTree(tree, LoweredFrom(g, e, k, m + 1))
    ensures KeysKept(elements, key, Rekeyed(key1, At(g, m), At(g, m - k)), LoweredFrom(g, e, k, m + 1))
  {
    hide InOrder, MapTree, LoweredFrom, At, IsSlot;
    forall x | x in elements
      ensures Renaming(At(g, m), At(g, m - k))(LoweredFrom(g, e, k, m)(x)) == LoweredFrom(g, e, k, m + 1)(x)
      ensures LoweredFrom(g, e, k, m)(x) != At(g, m - k)
    {
      LowerStep(g, e, k, m, x, live);
    }
    MapTreeTwice(tree, LoweredFrom(g, e, k, m), Renaming(At(g, m), At(g, m - k)), LoweredFrom(g, e, k, m + 1));
  }

  lemma NothingLowered(a: TreeObject, g: Links.Space, e: nat, k: nat, live: set<nat>)
    requires g.base > 0 && g.step > 0 && k <= e && Holds(a, g, live)
    ensures AllSlots(g, live, a.Elements()) && a.Elements() == InOrder(a.tree)
    ensures KeysKept(a.Elements(), a.key, a.key, LoweredFrom(g, e, k, e))
    ensures MapTree(a.tree, LoweredFrom(g, e, k, e)) == a.tree
  {
    hide InOrder, At;
    MapTreeIdentity(a.tree, LoweredFrom(g, e, k, e));
  }

  lemma KeptSlots(i: nat, k: nat, n: nat, live: set<nat>)
    requires live == Steps.Kept(k, n, i + k)
    ensures forall s: nat :: s in live ==> s < i || i + k <= s
  {
  }

  /** Shifting the elements behind k deleted ones, from slot i on, down by k slots
      leaves the same tree, with the addresses of the shifted elements
      renumbered. The deleted elements are in the tree no more. */
  method ShiftDown(a: TreeObject, g: Links.Space, i: nat, k: nat, n: nat)
    requires g.base > 0 && g.step > 0 && k > 0 && i + k <= n && Holds(a, g, Steps.Kept(k, n, i + k))
    requires forall s: nat :: i <= s < n ==> At(g, s) in a.mem
    modifies a
    ensures Holds(a, g, Below(n - k))
    ensures a.tree == MapTree(old(a.tree), LoweredFrom(g, i + k, k, n))
    ensures KeysKept(old(a.Elements()), old(a.key), a.key, LoweredFrom(g, i + k, k, n))
  {
    hide *;
    ghost var tree, elements, key := a.tree, a.Elements(), a.key;
    ghost var all := Steps.Kept(k, n, i + k);
    KeptSlots(i, k, n, all);
    NothingLowered(a, g, i + k, k, all);
    var m := i + k;
    while m < n
      invariant i + k <= m <= n && a.mem.Keys == old(a.mem).Keys
      invariant Holds(a, g, Steps.Kept(k, n, m))
      invariant a.tree == MapTree(tree, LoweredFrom(g, i + k, k, m))
      invariant KeysKept(elements, key, a.key, LoweredFrom(g, i + k, k, m))
    {
      ghost var keyWas := a.key;
      Steps.KeptStep(k, n, m);
      Steps.DownSlot(g, m, k);
      assert At(g, m - k) in a.mem.Keys;
      MoveElement(a, g, m, m - k, k * g.step, -1, Steps.Kept(k, n, m));
      LowerSteps(tree, elements, g, i + k, k, m, all, key, keyWas);
      m := m + 1;
    }
    Steps.ClosedLive(k, n);
  }

  // ----- the whole array moved -----

  function ShiftBy(d: int): Ptr -> Ptr {
    (p: Ptr) => if p + d >= 0 then p + d else 0
  }

  /** An element's child pointers, moved as far as the elements. */
  function ShiftedCell(c: Cell, d: int): Cell {
    c.(left := if c.left == 0 then 0 else ShiftBy(d)(c.left), right := if c.right == 0 then 0 else ShiftBy(d)(c.right))
  }

  /** A later element of the tree lay where the root lies now, so that the pass
      takes the root for one that has not been repaired yet. */
  ghost predicate RootOvertaken(g: Links.Space, d: int, tree: Tree, n: nat)
    requires g.base > 0 && g.step > 0
  {
    tree.Node? && d > 0 && PassedBy(g, d, tree, n)
  }

  ghost predicate PassedBy(g: Links.Space, d: int, tree: Tree, n: nat)
    requires g.base > 0 && g.step > 0 && tree.Node?
  {
    exists k: nat :: k < n && At(g, k) in InOrder(tree) && At(g, k) == tree.ptr + d
  }

  /** The elements of the tree whose cells have all been shifted make the same
      tree at the new addresses. */
  lemma {:induction false} ShiftedRep(was: Memory, mem: Memory, p: Ptr, t: Tree, d: int)
    requires Rep(was, p, t)
    requires forall x :: x in InOrder(t) ==> x in was && x + d > 0 && x + d in mem && mem[x + d] == ShiftedCell(was[x], d)
    ensures Rep(mem, if p == 0 then 0 else ShiftBy(d)(p), MapTree(t, ShiftBy(d)))
    decreases t
  {
    if t.Node? {
      InNode(t);
      ShiftedRep(was, mem, was[p].left, t.left, d);
      ShiftedRep(was, mem, was[p].right, t.right, d);
    }
  }

  /** Elements keep their cells, in the new place, as the allocator left them. */
  ghost predicate Transported(was: Memory, mem: Memory, g: Links.Space, d: int, start: nat, n: nat)
    requires g.base > 0 && g.step > 0 && g.base + d > 0
  {
    forall s: nat :: start <= s < n ==> At(g, s) in was && At(Moved(g, d), s) in mem && mem[At(Moved(g, d), s)] == was[At(g, s)]
  }

  function Moved(g: Links.Space, d: int): (r: Links.Space)
    requires g.base + d > 0
    ensures r.base > 0 && r.step == g.step
  {
    Links.Space(g.base + d, g.step)
  }

  lemma MovedAt(g: Links.Space, d: int, s: nat)
    requires g.base > 0 && g.step > 0 && g.base + d > 0
    ensures At(Moved(g, d), s) == At(g, s) + d
  {
  }

  /** The slots below s have been repaired, those that are in the tree. */
  ghost predicate Repaired(was: Memory, mem: Memory, g: Links.Space, d: int, elements: seq<Ptr>, s: nat)
    requires g.base > 0 && g.step > 0 && g.base + d > 0
  {
    forall x: nat :: x < s && At(g, x) in elements ==>
      At(g, x) in was && At(Moved(g, d), x) in mem && mem[At(Moved(g, d), x)] == ShiftedCell(was[At(g, x)], d)
  }

  /** The slots below s that are not in the tree have the cells they had. */
  ghost predicate LeftAlone(was: Memory, mem: Memory, g: Links.Space, d: int, elements: seq<Ptr>, s: nat)
    requires g.base > 0 && g.step > 0 && g.base + d > 0
  {
    forall x: nat :: x < s && At(g, x) !in elements ==>
      At(g, x) in was && At(Moved(g, d), x) in mem && mem[At(Moved(g, d), x)] == was[At(g, x)]
  }

  lemma RepairStep(was: Memory, mem: Memory, mem2: Memory, g: Links.Space, d: int, elements: seq<Ptr>, s: nat, n: nat)
    requires g.base > 0 && g.step > 0 && g.base + d > 0 && s < n
    requires Transported(was, mem, g, d, s, n) && Repaired(was, mem, g, d, elements, s)
    requires At(Moved(g, d), s) in mem && At(g, s) in was
    requires mem2 == if At(g, s) in elements then mem[At(Moved(g, d), s) := ShiftedCell(was[At(g, s)], d)] else mem
    ensures Transported(was, mem2, g, d, s + 1, n) && Repaired(was, mem2, g, d, elements, s + 1)
    ensures LeftAlone(was, mem, g, d, elements, s) ==> LeftAlone(was, mem2, g, d, elements, s + 1)
  {
    hide At;
    forall x: nat | x != s
      ensures At(Moved(g, d), x) != At(Moved(g, d), s)
    {
      SlotsInOrder(Moved(g, d), x, s);
      SlotsInOrder(Moved(g, d), s, x);
    }
  }

  /** jr_AVL_TreeTransformPrefix for all elements, in order: the tree reads as the
      same one at the new addresses if and only if the root is not overtaken. */
  method TransformPrefixes(a: TreeObject, g: Links.Space, d: int, n: nat, ghost was: Memory)
    requires g.base > 0 && g.step > 0 && g.base + d > 0
    requires Rep(was, a.root, a.tree) && Weak(a.tree) && AllSlots(g, Below(n), InOrder(a.tree))
    requires Transported(was, a.mem, g, d, 0, n)
    requires forall s: nat :: s < n ==> At(g, s) in was && (At(g, s) in InOrder(a.tree) || was[At(g, s)].height < 0)
    modifies a`root, a`mem
    ensures Rep(a.mem, a.root, MapTree(a.tree, ShiftBy(d))) <==> !RootOvertaken(g, d, a.tree, n)
    ensures a.mem.Keys == old(a.mem).Keys && LeftAlone(was, a.mem, g, d, InOrder(a.tree), n)
  {
    hide InOrder, Rep, Weak, MapTree, At, IsSlot, RootOvertaken, PassedBy, Transported, Repaired, ShiftBy, ShiftedCell, LeftAlone;
    ghost var elements, root := InOrder(a.tree), a.root;
    RootFields(was, root, a.tree);
    StartPass(g, d, a.tree, was, a.mem, root, n);
    for s := 0 to n
      invariant a.mem.Keys == old(a.mem).Keys && LeftAlone(was, a.mem, g, d, elements, s)
      invariant Transported(was, a.mem, g, d, s, n) && Repaired(was, a.mem, g, d, elements, s)
      invariant RootAt(g, d, a.tree, root, a.root, s)
    {
      CellAt(was, a.mem, g, d, s, n);
      SlotHeight(was, root, a.tree, At(g, s));
      MovedAt(g, d, s);
      RootStep(g, d, a.tree, root, a.root, s, n);
      var el := At(Moved(g, d), s);
      ghost var mem := a.mem;
      if a.mem[el].height >= 0 {
        var oldEl := el - d;
        if oldEl == a.root {
          a.root := el;
        }
        a.mem := a.mem[el := ShiftedCell(a.mem[el], d)];
      }
      RepairStep(was, mem, a.mem, g, d, elements, s, n);
    }
    PassOver(was, a.mem, g, d, a.tree, root, a.root, n);
  }

  lemma CellAt(was: Memory, mem: Memory, g: Links.Space, d: int, s: nat, n: nat)
    requires g.base > 0 && g.step > 0 && g.base + d > 0 && s < n && Transported(was, mem, g, d, s, n)
    ensures At(g, s) in was && At(Moved(g, d), s) in mem && mem[At(Moved(g, d), s)] == was[At(g, s)]
  {
  }

  /** Where the root pointer stands once the slots below s are done. */
  ghost predicate RootAt(g: Links.Space, d: int, tree: Tree, root: Ptr, now: Ptr, s: nat)
    requires g.base > 0 && g.step > 0
  {
    if tree.Leaf? then now == 0
    else if At(g, s) <= root then now == root
    else if RootOvertaken(g, d, tree, s) then now > root + d
    else now == root + d
  }

  lemma RootSlot(g: Links.Space, tree: Tree, n: nat) returns (h: nat)
    requires g.base > 0 && g.step > 0 && tree.Node? && AllSlots(g, Below(n), InOrder(tree))
    ensures h < n && At(g, h) == tree.ptr
    ensures forall s: nat :: At(g, s) <= tree.ptr <==> s <= h
  {
    InNode(tree);
    hide InOrder, At;
    h :| h in Below(n) && At(g, h) == tree.ptr;
    forall s: nat
      ensures At(g, s) <= tree.ptr <==> s <= h
    {
      SlotsInOrder(g, h, s);
    }
  }

  lemma StartPass(g: Links.Space, d: int, tree: Tree, was: Memory, mem: Memory, root: Ptr, n: nat)
    requires g.base > 0 && g.step > 0 && g.base + d > 0 && Rep(was, root, tree)
    requires AllSlots(g, Below(n), InOrder(tree))
    ensures Repaired(was, mem, g, d, InOrder(tree), 0) && RootAt(g, d, tree, root, root, 0)
    ensures LeftAlone(was, mem, g, d, InOrder(tree), 0)
  {
    if tree.Node? {
      var h := RootSlot(g, tree, n);
    }
  }

  /** A slot says by its height whether it is in the tree. */
  lemma SlotHeight(was: Memory, root: Ptr, tree: Tree, x: Ptr)
    requires Rep(was, root, tree) && Weak(tree) && x in was
    requires x in InOrder(tree) || was[x].height < 0
    ensures was[x].height >= 0 <==> x in InOrder(tree)
  {
    if x in InOrder(tree) {
      MemberHeight(was, root, tree, x);
    }
  }

  /** What the pass does to the root pointer at one element. */
  lemma RootStep(g: Links.Space, d: int, tree: Tree, root: Ptr, now: Ptr, s: nat, n: nat)
    requires g.base > 0 && g.step > 0 && s < n && AllSlots(g, Below(n), InOrder(tree))
    requires tree.Node? ==> root == tree.ptr
    requires RootAt(g, d, tree, root, now, s)
    ensures At(g, s) in InOrder(tree) && now == At(g, s) && At(g, s) + d >= 0 ==> RootAt(g, d, tree, root, At(g, s) + d, s + 1)
    ensures At(g, s) in InOrder(tree) && now != At(g, s) ==> RootAt(g, d, tree, root, now, s + 1)
    ensures At(g, s) !in InOrder(tree) ==> RootAt(g, d, tree, root, now, s + 1)
  {
    if tree.Node? {
      var h := RootSlot(g, tree, n);
      InNode(tree);
      hide InOrder, At;
      assert PassedBy(g, d, tree, s + 1) <==> PassedBy(g, d, tree, s) || (At(g, s) in InOrder(tree) && At(g, s) == root + d);
      if s == h && d > 0 {
        forall k: nat | k < s + 1
          ensures At(g, k) != root + d
        {
          assert At(g, k) <= tree.ptr;
        }
      }
    }
  }

  /** After the last element. */
  lemma PassOver(was: Memory, mem: Memory, g: Links.Space, d: int, tree: Tree, root: Ptr, now: Ptr, n: nat)
    requires g.base > 0 && g.step > 0 && g.base + d > 0 && Rep(was, root, tree)
    requires AllSlots(g, Below(n), InOrder(tree))
    requires Repaired(was, mem, g, d, InOrder(tree), n) && RootAt(g, d, tree, root, now, n)
    ensures Rep(mem, now, MapTree(tree, ShiftBy(d))) <==> !RootOvertaken(g, d, tree, n)
  {
    RootFields(was, root, tree);
    forall x | x in InOrder(tree)
      ensures x in was && x + d > 0 && x + d in mem && mem[x + d] == ShiftedCell(was[x], d)
    {
      var k: nat :| k in Below(n) && At(g, k) == x;
      MovedAt(g, d, k);
    }
    ShiftedRep(was, mem, root, tree, d);
    if tree.Node? {
      var h := RootSlot(g, tree, n);
      InNode(tree);
      assert At(g, n) > root;
    }
  }

  // ----- the tree of an array that moves -----

  function KeyBefore(key: Ptr -> int, d: int): Ptr -> int {
    (p: Ptr) => key(if p - d >= 0 then p - d else 0)
  }

  /** The first n slots brought to their new addresses as they were, with room for
      more behind them. */
  method Transport(mem: Memory, g: Links.Space, d: int, n: nat, total: nat) returns (moved: Memory)
    requires g.base > 0 && g.step > 0 && g.base + d > 0 && n <= total
    requires forall s: nat :: s < n ==> At(g, s) in mem
    ensures Transported(mem, moved, g, d, 0, n)
    ensures forall s: nat :: s < total ==> At(Moved(g, d), s) in moved
  {
    hide At, Moved;
    moved := map[];
    for s := 0 to total
      invariant forall x: nat :: x < s ==> At(Moved(g, d), x) in moved
      invariant forall x: nat :: x < s && x < n ==> moved[At(Moved(g, d), x)] == mem[At(g, x)]
    {
      AddressesDiffer(Moved(g, d), s);
      moved := moved[At(Moved(g, d), s) := if s < n then mem[At(g, s)] else Cell(0, 0, 0, 0)];
    }
  }

  lemma AddressesDiffer(g: Links.Space, s: nat)
    requires g.base > 0 && g.step > 0
    ensures forall x: nat :: x < s ==> At(g, x) != At(g, s)
  {
    forall x: nat | x < s
      ensures At(g, x) != At(g, s)
    {
      SlotsInOrder(g, x, s);
    }
  }

  /** The tree of an array whose n elements have moved by d, after the pass over
      all of them: the same tree, with the same keys, at the new addresses if and
      only if the root is not overtaken. */
  method MoveAll(a: TreeObject, g: Links.Space, d: int, n: nat, total: nat)
    requires g.base > 0 && g.step > 0 && g.base + d > 0 && n <= total && Holds(a, g, Below(n))
    modifies a
    ensures Holds(a, Moved(g, d), Below(n)) <==> !RootOvertaken(g, d, old(a.tree), n)
    ensures a.tree == MapTree(old(a.tree), ShiftBy(d)) && a.key == KeyBefore(old(a.key), d)
    ensures forall s: nat :: s < total ==> At(Moved(g, d), s) in a.mem
  {
    hide Holds, At, IsSlot, InOrder, Rep, Weak, MapTree, Transported, LeftAlone, RootOvertaken, ShiftBy, Sorted, NoDup, SizesExact, AllSlots, Moved;
    ghost var was, t, key := a.mem, a.tree, a.key;
    HoldsParts(a, g, n);
    a.mem := Transport(a.mem, g, d, n, total);
    TransformPrefixes(a, g, d, n, was);
    a.tree := MapTree(a.tree, ShiftBy(d));
    a.key := KeyBefore(a.key, d);
    MovedHolds(a, g, d, n, was, t, key);
  }

  lemma HoldsParts(a: TreeObject, g: Links.Space, n: nat)
    requires g.base > 0 && g.step > 0 && Holds(a, g, Below(n))
    ensures Rep(a.mem, a.root, a.tree) && Weak(a.tree) && SizesExact(a.tree) && NoDup(InOrder(a.tree)) && Sorted(InOrder(a.tree), a.key)
    ensures AllSlots(g, Below(n), InOrder(a.tree))
    ensures forall s: nat :: s < n ==> At(g, s) in a.mem && (At(g, s) in InOrder(a.tree) || a.mem[At(g, s)].height < 0)
  {
    hide At, IsSlot, InOrder, Rep, Weak, Sorted, NoDup, SizesExact, AllSlots;
    forall s: nat | s < n
      ensures At(g, s) in a.mem && (At(g, s) in InOrder(a.tree) || a.mem[At(g, s)].height < 0)
    {
      assert s in Below(n);
    }
  }

  lemma MovedHolds(a: TreeObject, g: Links.Space, d: int, n: nat, was: Memory, t: Tree, key: Ptr -> int)
    requires g.base > 0 && g.step > 0 && g.base + d > 0
    requires Weak(t) && SizesExact(t) && NoDup(InOrder(t)) && Sorted(InOrder(t), key) && AllSlots(g, Below(n), InOrder(t))
    requires forall s: nat :: s < n ==> At(g, s) in was && (At(g, s) in InOrder(t) || was[At(g, s)].height < 0)
    requires LeftAlone(was, a.mem, g, d, InOrder(t), n)
    requires forall s: nat :: s < n ==> At(Moved(g, d), s) in a.mem
    requires a.tree == MapTree(t, ShiftBy(d)) && a.key == KeyBefore(key, d)
    ensures Holds(a, Moved(g, d), Below(n)) <==> Rep(a.mem, a.root, a.tree)
  {
    hide Rep, MapTree, InOrder, Weak, SizesExact, At;
    MapTreeElements(t, ShiftBy(d));
    var s, s2 := InOrder(t), InOrder(a.tree);
    ShiftedSeq(g, d, n, s, s2, key);
    forall x: nat | x in Below(n)
      ensures At(Moved(g, d), x) in a.mem && (At(Moved(g, d), x) in s2 || a.mem[At(Moved(g, d), x)].height < 0)
    {
      MovedAt(g, d, x);
      if At(g, x) in s {
        var i :| 0 <= i < |s| && s[i] == At(g, x);
        assert s2[i] == At(Moved(g, d), x);
      }
    }
  }

  lemma ShiftedSeq(g: Links.Space, d: int, n: nat, s: seq<Ptr>, s2: seq<Ptr>, key: Ptr -> int)
    requires g.base > 0 && g.step > 0 && g.base + d > 0 && s2 == MapSeq(s, ShiftBy(d))
    requires NoDup(s) && Sorted(s, key) && AllSlots(g, Below(n), s)
    ensures forall i :: 0 <= i < |s| ==> s[i] + d > 0 && s2[i] == s[i] + d
    ensures NoDup(s2) && Sorted(s2, KeyBefore(key, d)) && AllSlots(Moved(g, d), Below(n), s2)
  {
    forall i | 0 <= i < |s|
      ensures s[i] + d > 0 && s2[i] == s[i] + d && IsSlot(Moved(g, d), Below(n), s2[i])
    {
      assert IsSlot(g, Below(n), s[i]);
      var x: nat :| x in Below(n) && At(g, x) == s[i];
      MovedAt(g, d, x);
      assert At(Moved(g, d), x) == s[i] + d;
    }
  }
}
