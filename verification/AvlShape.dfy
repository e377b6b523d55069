/** The shape of an AVL tree with stored heights and subtree sizes, the path
    from the root to a place in it, and what inserting and extracting do to it. */
module AvlShape {
  /** A pointer to an element; 0 is the null pointer. */
  type Ptr = nat

  /** Heights and sizes are the values stored in the elements. */
  datatype Tree = Leaf | Node(left: Tree, ptr: Ptr, height: int, size: int, right: Tree)

  /** One step of a path: the element passed and the subtree not taken. */
  datatype Crumb =
    | WentLeft(ptr: Ptr, height: int, size: int, right: Tree)
    | WentRight(left: Tree, ptr: Ptr, height: int, size: int)

  function H(t: Tree): int {
    if t.Leaf? then -1 else t.height
  }

  function Size(t: Tree): int {
    if t.Leaf? then 0 else t.size
  }

  function InOrder(t: Tree): seq<Ptr> {
    match t
    case Leaf => []
    case Node(l, p, _, _, r) => InOrder(l) + [p] + InOrder(r)
  }

  // ----- paths -----

  function Fill(c: Crumb, t: Tree): (r: Tree)
    ensures r.Node? && r.ptr == c.ptr && r.height == c.height && r.size == c.size
  {
    match c
    case WentLeft(p, h, s, r) => Node(t, p, h, s, r)
    case WentRight(l, p, h, s) => Node(l, p, h, s, t)
  }

  /** The subtree that a step did not take. */
  function Sibling(c: Crumb): Tree {
    if c.WentLeft? then c.right else c.left
  }

  function Rest(path: seq<Crumb>): seq<Crumb>
    requires |path| > 0
  {
    path[..|path| - 1]
  }

  function Last(path: seq<Crumb>): Crumb
    requires |path| > 0
  {
    path[|path| - 1]
  }

  /** The whole tree, given the path to a place in it and the subtree there. */
  function Plug(path: seq<Crumb>, t: Tree): Tree
    decreases |path|
  {
    if |path| == 0 then t else Plug(Rest(path), Fill(Last(path), t))
  }

  function CrumbBefore(c: Crumb): seq<Ptr> {
    if c.WentRight? then InOrder(c.left) + [c.ptr] else []
  }

  function CrumbAfter(c: Crumb): seq<Ptr> {
    if c.WentLeft? then [c.ptr] + InOrder(c.right) else []
  }

  /** The elements before, and after, the place a path leads to. */
  function Before(path: seq<Crumb>): seq<Ptr>
    decreases |path|
  {
    if |path| == 0 then [] else Before(Rest(path)) + CrumbBefore(Last(path))
  }

  function After(path: seq<Crumb>): seq<Ptr>
    decreases |path|
  {
    if |path| == 0 then [] else CrumbAfter(Last(path)) + After(Rest(path))
  }

  lemma FillInOrder(c: Crumb, t: Tree)
    ensures InOrder(Fill(c, t)) == CrumbBefore(c) + InOrder(t) + CrumbAfter(c)
  {
  }

  lemma Regroup(a: seq<Ptr>, b: seq<Ptr>, m: seq<Ptr>, c: seq<Ptr>, d: seq<Ptr>)
    ensures a + (b + m + c) + d == (a + b) + m + (c + d)
  {
  }

  lemma {:induction false} PlugInOrder(path: seq<Crumb>, t: Tree)
    ensures InOrder(Plug(path, t)) == Before(path) + InOrder(t) + After(path)
    decreases |path|
  {
    if |path| > 0 {
      hide InOrder, Fill, CrumbBefore, CrumbAfter;
      var c := Last(path);
      PlugInOrder(Rest(path), Fill(c, t));
      FillInOrder(c, t);
      Regroup(Before(Rest(path)), CrumbBefore(c), InOrder(t), CrumbAfter(c), After(Rest(path)));
    }
  }

  lemma {:induction false} PlugConcat(path: seq<Crumb>, more: seq<Crumb>, t: Tree)
    ensures Plug(path + more, t) == Plug(path, Plug(more, t))
    decreases |more|
  {
    if |more| == 0 {
      assert path + more == path;
    } else {
      assert Rest(path + more) == path + Rest(more);
      PlugConcat(path, Rest(more), Fill(Last(more), t));
    }
  }

  // ----- rebalancing -----

  /** A node whose stored size is computed from its children's. */
  function Sized(l: Tree, p: Ptr, h: int, r: Tree): Tree {
    Node(l, p, h, 1 + Size(l) + Size(r), r)
  }

  /** No rotation of this node needs a child that is not there. */
  predicate CanRotate(t: Tree)
    requires t.Node?
  {
    if H(t.right) > H(t.left) then
      t.right.Node? && (H(t.right.right) > H(t.right.left) || t.right.left.Node?)
    else
      t.left.Node? && (H(t.left.left) > H(t.left.right) || t.left.right.Node?)
  }

  /** jr_AVL_TreeBalanceElement: a single rotation when the outer grandchild is
      strictly higher, else a double one. */
  function Rotated(t: Tree): Tree
    requires t.Node? && CanRotate(t)
  {
    if H(t.right) > H(t.left) then
      var c := t.right;
      if H(c.right) > H(c.left) then
        Sized(Sized(t.left, t.ptr, H(t.left) + 1, c.left), c.ptr, H(c.right) + 1, c.right)
      else
        var g := c.left;
        Sized(Sized(t.left, t.ptr, H(t.left) + 1, g.left), g.ptr, H(t.left) + 2,
              Sized(g.right, c.ptr, H(c.right) + 1, c.right))
    else
      var c := t.left;
      if H(c.left) > H(c.right) then
        Sized(c.left, c.ptr, H(c.left) + 1, Sized(c.right, t.ptr, H(t.right) + 1, t.right))
      else
        var g := c.right;
        Sized(Sized(c.left, c.ptr, H(c.left) + 1, g.left), g.ptr, H(t.right) + 2,
              Sized(g.right, t.ptr, H(t.right) + 1, t.right))
  }

  function Max(a: int, b: int): int {
    if a < b then b else a
  }

  function Difference(t: Tree): int
    requires t.Node?
  {
    if H(t.right) < H(t.left) then H(t.left) - H(t.right) else H(t.right) - H(t.left)
  }

  function HigherChild(t: Tree): int
    requires t.Node?
  {
    if H(t.right) < H(t.left) then H(t.left) else H(t.right)
  }

  /** jr_AVL_TreeBalancePath, from the subtree t at the end of the path. */
  function BalanceUp(path: seq<Crumb>, t: Tree): Tree
    decreases |path|
  {
    if |path| == 0 then t
    else
      var node := Fill(Last(path), t);
      if Difference(node) == 2 then
        Plug(Rest(path), if CanRotate(node) then Rotated(node) else node)
      else if node.height == HigherChild(node) + 1 then Plug(Rest(path), node)
      else BalanceUp(Rest(path), node.(height := HigherChild(node) + 1))
  }

  /** Stored sizes along a path changed by d. */
  function Bump(path: seq<Crumb>, d: int): (r: seq<Crumb>)
    ensures |r| == |path|
    decreases |path|
  {
    if |path| == 0 then []
    else Bump(Rest(path), d) + [Last(path).(size := Last(path).size + d)]
  }

  /** jr_AVL_TreeAppendToPath. */
  function Inserted(path: seq<Crumb>, p: Ptr): Tree {
    BalanceUp(Bump(path, 1), Node(Leaf, p, 0, 1, Leaf))
  }

  // ----- invariants -----

  /** Stored sizes are the numbers of elements. */
  ghost predicate SizesExact(t: Tree) {
    t.Node? ==> t.size == |InOrder(t)| && SizesExact(t.left) && SizesExact(t.right)
  }

  /** Stored heights are not negative and are 0 for an element without children. */
  ghost predicate Weak(t: Tree) {
    t.Node? ==>
      && t.height >= 0
      && (t.left.Leaf? && t.right.Leaf? ==> t.height == 0)
      && Weak(t.left) && Weak(t.right)
  }

  ghost predicate WeakCrumb(c: Crumb) {
    c.height >= 0 && Weak(if c.WentLeft? then c.right else c.left)
  }

  ghost predicate WeakPath(path: seq<Crumb>) {
    forall i :: 0 <= i < |path| ==> WeakCrumb(path[i])
  }

  /** The real height; an empty tree has height -1. */
  ghost function Height(t: Tree): int {
    match t
    case Leaf => -1
    case Node(l, _, _, _, r) => 1 + Max(Height(l), Height(r))
  }

  /** Stored heights are exact and siblings differ by at most 1. */
  ghost predicate Avl(t: Tree) {
    t.Node? ==>
      && t.height == 1 + Max(H(t.left), H(t.right))
      && -1 <= H(t.left) - H(t.right) <= 1
      && Avl(t.left) && Avl(t.right)
  }

  lemma {:induction false} AvlHeights(t: Tree)
    requires Avl(t)
    ensures H(t) == Height(t) >= -1
    ensures t.Node? ==> H(t) >= 0
  {
    if t.Node? {
      AvlHeights(t.left);
      AvlHeights(t.right);
    }
  }

  lemma {:induction false} AvlIsWeak(t: Tree)
    requires Avl(t)
    ensures Weak(t)
  {
    if t.Node? {
      AvlHeights(t);
      AvlIsWeak(t.left);
      AvlIsWeak(t.right);
    }
  }

  // ----- sizes -----

  lemma {:induction false} SizesExactAtHole(path: seq<Crumb>, t: Tree)
    requires SizesExact(Plug(path, t))
    ensures SizesExact(t)
    decreases |path|
  {
    if |path| > 0 {
      SizesExactAtHole(Rest(path), Fill(Last(path), t));
    }
  }

  /** Replacing the subtree at the end of a path by one with d more elements. */
  lemma {:induction false} SizesAfterBump(path: seq<Crumb>, t: Tree, t2: Tree, d: int)
    requires SizesExact(Plug(path, t)) && SizesExact(t2)
    requires |InOrder(t2)| == |InOrder(t)| + d
    ensures SizesExact(Plug(Bump(path, d), t2))
    decreases |path|
  {
    if |path| > 0 {
      var c := Last(path);
      SizesExactAtHole(Rest(path), Fill(c, t));
      var b := Bump(path, d);
      assert Rest(b) == Bump(Rest(path), d);
      SizesAfterBump(Rest(path), Fill(c, t), Fill(Last(b), t2), d);
    }
  }

  lemma {:induction false} NoBump(path: seq<Crumb>)
    ensures Bump(path, 0) == path
    decreases |path|
  {
    if |path| > 0 {
      NoBump(Rest(path));
      assert path == Rest(path) + [Last(path)];
    }
  }

  lemma SizesReplaced(path: seq<Crumb>, t: Tree, t2: Tree)
    requires SizesExact(Plug(path, t)) && SizesExact(t2)
    requires |InOrder(t2)| == |InOrder(t)|
    ensures SizesExact(Plug(path, t2))
  {
    SizesAfterBump(path, t, t2, 0);
    NoBump(path);
  }

  // ----- what rebalancing keeps -----

  lemma RotatedInOrder(t: Tree)
    requires t.Node? && CanRotate(t)
    ensures InOrder(Rotated(t)) == InOrder(t)
  {
    var l, r := t.left, t.right;
    if H(r) > H(l) {
      if H(r.right) > H(r.left) {
        MoveRight(InOrder(l), t.ptr, InOrder(r.left), r.ptr, InOrder(r.right));
      } else {
        var g := r.left;
        assert InOrder(r.left) == InOrder(g.left) + [g.ptr] + InOrder(g.right);
        MoveMiddle(InOrder(l), t.ptr, InOrder(g.left), g.ptr, InOrder(g.right), r.ptr, InOrder(r.right));
      }
    } else if H(l.left) > H(l.right) {
      MoveRight(InOrder(l.left), l.ptr, InOrder(l.right), t.ptr, InOrder(r));
    } else {
      var g := l.right;
      assert InOrder(l.right) == InOrder(g.left) + [g.ptr] + InOrder(g.right);
      MoveMiddle(InOrder(l.left), l.ptr, InOrder(g.left), g.ptr, InOrder(g.right), t.ptr, InOrder(r));
    }
  }

  lemma MoveRight(a: seq<Ptr>, x: Ptr, b: seq<Ptr>, y: Ptr, c: seq<Ptr>)
    ensures a + [x] + (b + [y] + c) == (a + [x] + b) + [y] + c
  {
  }

  lemma MoveMiddle(a: seq<Ptr>, x: Ptr, b: seq<Ptr>, y: Ptr, c: seq<Ptr>, z: Ptr, d: seq<Ptr>)
    ensures a + [x] + ((b + [y] + c) + [z] + d) == (a + [x] + b) + [y] + (c + [z] + d)
    ensures (a + [x] + (b + [y] + c)) + [z] + d == (a + [x] + b) + [y] + (c + [z] + d)
  {
  }

  lemma SizedExact(l: Tree, p: Ptr, h: int, r: Tree)
    requires SizesExact(l) && SizesExact(r)
    ensures SizesExact(Sized(l, p, h, r))
  {
  }

  lemma RotatedSizes(t: Tree)
    requires t.Node? && CanRotate(t) && SizesExact(t)
    ensures SizesExact(Rotated(t))
  {
    hide InOrder, SizesExact, Sized;
    var l, r := t.left, t.right;
    PartsExact(t);
    if H(r) > H(l) {
      PartsExact(r);
      PartsExact(r.left);
      if H(r.right) > H(r.left) {
        SizedExact(l, t.ptr, H(l) + 1, r.left);
        SizedExact(Sized(l, t.ptr, H(l) + 1, r.left), r.ptr, H(r.right) + 1, r.right);
      } else {
        DoubleExact(l, t.ptr, H(l) + 1, r.left, H(l) + 2, r.ptr, H(r.right) + 1, r.right);
      }
    } else {
      PartsExact(l);
      PartsExact(l.right);
      if H(l.left) > H(l.right) {
        SizedExact(l.right, t.ptr, H(r) + 1, r);
        SizedExact(l.left, l.ptr, H(l.left) + 1, Sized(l.right, t.ptr, H(r) + 1, r));
      } else {
        DoubleExact(l.left, l.ptr, H(l.left) + 1, l.right, H(r) + 2, t.ptr, H(r) + 1, r);
      }
    }
  }

  lemma PartsExact(t: Tree)
    requires SizesExact(t)
    ensures t.Node? ==> SizesExact(t.left) && SizesExact(t.right)
  {
  }

  lemma DoubleExact(l: Tree, p: Ptr, h: int, g: Tree, gh: int, q: Ptr, qh: int, r: Tree)
    requires SizesExact(l) && SizesExact(r) && g.Node? && SizesExact(g.left) && SizesExact(g.right)
    ensures SizesExact(Sized(Sized(l, p, h, g.left), g.ptr, gh, Sized(g.right, q, qh, r)))
  {
    hide InOrder, SizesExact, Sized;
    SizedExact(l, p, h, g.left);
    SizedExact(g.right, q, qh, r);
    SizedExact(Sized(l, p, h, g.left), g.ptr, gh, Sized(g.right, q, qh, r));
  }

  lemma {:induction false} BumpShape(path: seq<Crumb>, d: int)
    ensures Before(Bump(path, d)) == Before(path) && After(Bump(path, d)) == After(path)
    ensures WeakPath(path) ==> WeakPath(Bump(path, d))
    decreases |path|
  {
    if |path| > 0 {
      BumpShape(Rest(path), d);
      assert Rest(Bump(path, d)) == Bump(Rest(path), d);
      if WeakPath(path) {
        assert WeakCrumb(Last(path));
      }
    }
  }

  lemma HeightIrrelevant(t: Tree, h: int)
    requires t.Node?
    ensures InOrder(t.(height := h)) == InOrder(t)
    ensures SizesExact(t.(height := h)) == SizesExact(t)
  {
  }

  /** What one step of the climb keeps. */
  lemma StepKeeps(path: seq<Crumb>, node: Tree, node2: Tree)
    requires InOrder(node2) == InOrder(node) && (SizesExact(node) ==> SizesExact(node2))
    ensures InOrder(Plug(path, node2)) == InOrder(Plug(path, node))
    ensures SizesExact(Plug(path, node)) ==> SizesExact(Plug(path, node2))
  {
    hide InOrder, SizesExact, Plug;
    PlugInOrder(path, node);
    PlugInOrder(path, node2);
    if SizesExact(Plug(path, node)) {
      SizesExactAtHole(path, node);
      SizesReplaced(path, node, node2);
    }
  }

  lemma {:induction false} BalanceUpSame(path: seq<Crumb>, t: Tree)
    ensures InOrder(BalanceUp(path, t)) == InOrder(Plug(path, t))
    ensures SizesExact(Plug(path, t)) ==> SizesExact(BalanceUp(path, t))
    decreases |path|
  {
    if |path| > 0 {
      var c, rest := Last(path), Rest(path);
      var node := Fill(c, t);
      assert Plug(path, t) == Plug(rest, node);
      hide InOrder, SizesExact, Plug, Rotated, Fill;
      if Difference(node) == 2 {
        if CanRotate(node) {
          RotatedInOrder(node);
          if SizesExact(node) {
            RotatedSizes(node);
          }
          StepKeeps(rest, node, Rotated(node));
        }
      } else if node.height != HigherChild(node) + 1 {
        HeightIrrelevant(node, HigherChild(node) + 1);
        StepKeeps(rest, node, node.(height := HigherChild(node) + 1));
        BalanceUpSame(rest, node.(height := HigherChild(node) + 1));
      }
    }
  }

  /** Rebalancing changes neither the in-order sequence nor exact sizes. */
  lemma BalanceUpKeeps(path: seq<Crumb>, t: Tree)
    ensures InOrder(BalanceUp(path, t)) == Before(path) + InOrder(t) + After(path)
    ensures SizesExact(Plug(path, t)) ==> SizesExact(BalanceUp(path, t))
  {
    BalanceUpSame(path, t);
    PlugInOrder(path, t);
  }

  /** With weak heights every rotation the climb may ask for is possible. */
  lemma WeakRotates(t: Tree)
    requires t.Node? && Weak(t.left) && Weak(t.right) && Difference(t) == 2
    ensures CanRotate(t) && Weak(Rotated(t)) && Rotated(t).Node?
  {
  }

  lemma {:induction false} WeakPlug(path: seq<Crumb>, t: Tree)
    requires WeakPath(path) && Weak(t) && t.Node?
    ensures Weak(Plug(path, t))
    decreases |path|
  {
    if |path| > 0 {
      assert WeakCrumb(Last(path));
      WeakPlug(Rest(path), Fill(Last(path), t));
    }
  }

  lemma {:induction false} WeakUnplug(path: seq<Crumb>, t: Tree)
    requires Weak(Plug(path, t))
    ensures WeakPath(path) && Weak(t)
    decreases |path|
  {
    if |path| > 0 {
      WeakUnplug(Rest(path), Fill(Last(path), t));
      assert path == Rest(path) + [Last(path)];
    }
  }

  /** The weak invariant survives rebalancing, after inserts and extracts alike. */
  lemma {:induction false} BalanceUpWeak(path: seq<Crumb>, t: Tree)
    requires WeakPath(path) && Weak(t)
    ensures Weak(BalanceUp(path, t))
    decreases |path|
  {
    if |path| > 0 {
      assert WeakCrumb(Last(path));
      var node := Fill(Last(path), t);
      if Difference(node) == 2 {
        WeakRotates(node);
        WeakPlug(Rest(path), Rotated(node));
      } else if node.height == HigherChild(node) + 1 {
        WeakPlug(Rest(path), node);
      } else {
        BalanceUpWeak(Rest(path), node.(height := HigherChild(node) + 1));
      }
    }
  }

  // ----- insertion keeps a tree that is balanced balanced -----

  /** No rotation that the climb asks for needs a child that is not there. */
  ghost predicate ClimbPossible(path: seq<Crumb>, t: Tree)
    decreases |path|
  {
    |path| > 0 ==>
      var node := Fill(Last(path), t);
      if Difference(node) == 2 then CanRotate(node)
      else node.height != HigherChild(node) + 1 ==> ClimbPossible(Rest(path), node.(height := HigherChild(node) + 1))
  }

  lemma {:induction false} WeakClimb(path: seq<Crumb>, t: Tree)
    requires WeakPath(path) && Weak(t)
    ensures ClimbPossible(path, t)
    decreases |path|
  {
    if |path| > 0 {
      assert WeakCrumb(Last(path));
      var node := Fill(Last(path), t);
      if Difference(node) == 2 {
        WeakRotates(node);
      } else {
        hide CanRotate, Difference;
        WeakClimb(Rest(path), node.(height := HigherChild(node) + 1));
      }
    }
  }

  lemma {:induction false} AvlUnplug(path: seq<Crumb>, t: Tree)
    requires Avl(Plug(path, t))
    ensures Avl(t)
    decreases |path|
  {
    if |path| > 0 {
      AvlUnplug(Rest(path), Fill(Last(path), t));
    }
  }

  lemma {:induction false} AvlReplaced(path: seq<Crumb>, t: Tree, t2: Tree)
    requires Avl(Plug(path, t)) && Avl(t2) && H(t2) == H(t)
    ensures Avl(Plug(path, t2))
    decreases |path|
  {
    if |path| > 0 {
      AvlUnplug(Rest(path), Fill(Last(path), t));
      AvlReplaced(Rest(path), Fill(Last(path), t), Fill(Last(path), t2));
    }
  }

  /** A subtree that has just grown by one level: a single new element, or one
      whose children differ in height. */
  ghost predicate Grown(t: Tree) {
    t.Node? && (t.height == 0 || H(t.left) != H(t.right))
  }

  /** A rotation after an insert gives back an exact, balanced subtree of the
      height it had before. */
  lemma RotatedAvl(t: Tree)
    requires t.Node? && Avl(t.left) && Avl(t.right) && Difference(t) == 2
    requires H(t.right) > H(t.left) ==> Grown(t.right)
    requires H(t.right) < H(t.left) ==> Grown(t.left)
    ensures CanRotate(t) && Avl(Rotated(t)) && H(Rotated(t)) == HigherChild(t)
  {
    AvlHeights(t.left);
    AvlHeights(t.right);
    if t.left.Node? {
      AvlHeights(t.left.left);
      AvlHeights(t.left.right);
    }
    if t.right.Node? {
      AvlHeights(t.right.left);
      AvlHeights(t.right.right);
    }
  }

  /** One element of the climb, whose subtree has grown from was to t. */
  lemma ClimbAvl(c: Crumb, was: Tree, t: Tree)
    requires Avl(Fill(c, was)) && Avl(t) && Grown(t) && H(t) == H(was) + 1
    ensures var before, node := Fill(c, was), Fill(c, t);
            && Avl(node.left) && Avl(node.right)
            && (Difference(node) == 2 ==> CanRotate(node) && Avl(Rotated(node)) && H(Rotated(node)) == H(before))
            && (Difference(node) != 2 && node.height == HigherChild(node) + 1 ==> Avl(node) && H(node) == H(before))
            && (Difference(node) != 2 && node.height != HigherChild(node) + 1 ==>
                  var node2 := node.(height := HigherChild(node) + 1);
                  Avl(node2) && Grown(node2) && H(node2) == H(before) + 1)
  {
    var node := Fill(c, t);
    AvlHeights(t);
    AvlHeights(if c.WentLeft? then c.right else c.left);
    if Difference(node) == 2 {
      hide Rotated, CanRotate;
      RotatedAvl(node);
    }
  }

  /** The climb after an insert: stopping at the first rotation, or at the first
      element whose stored height is right, leaves the whole tree balanced. */
  lemma {:induction false} BalanceUpAvl(path: seq<Crumb>, was: Tree, t: Tree)
    requires Avl(Plug(path, was)) && Avl(t) && Grown(t) && H(t) == H(was) + 1
    ensures Avl(BalanceUp(path, t))
    decreases |path|
  {
    if |path| > 0 {
      var c, rest := Last(path), Rest(path);
      var before, node := Fill(c, was), Fill(c, t);
      assert Plug(path, was) == Plug(rest, before);
      hide Avl, Plug, Rotated, CanRotate, Grown, Fill;
      AvlUnplug(rest, before);
      ClimbAvl(c, was, t);
      if Difference(node) == 2 {
        AvlReplaced(rest, before, Rotated(node));
      } else if node.height == HigherChild(node) + 1 {
        AvlReplaced(rest, before, node);
      } else {
        BalanceUpAvl(rest, before, node.(height := HigherChild(node) + 1));
      }
    }
  }

  lemma {:induction false} AvlBump(path: seq<Crumb>, t: Tree, d: int)
    ensures Avl(Plug(path, t)) == Avl(Plug(Bump(path, d), t))
  {
    AvlOfPath(path, t, Bump(path, d), d);
  }

  /** Balance does not look at sizes. */
  lemma {:induction false} AvlOfPath(path: seq<Crumb>, t: Tree, bumped: seq<Crumb>, d: int)
    requires bumped == Bump(path, d)
    ensures Avl(Plug(path, t)) == Avl(Plug(bumped, t))
    decreases |path|
  {
    if |path| > 0 {
      var c, b := Last(path), Last(bumped);
      assert Rest(bumped) == Bump(Rest(path), d);
      AvlOfPath(Rest(path), Fill(c, t), Rest(bumped), d);
      AvlSameHeights(Rest(bumped), Fill(c, t), Fill(b, t));
    }
  }

  lemma {:induction false} AvlSameHeights(path: seq<Crumb>, t: Tree, t2: Tree)
    requires H(t) == H(t2) && Avl(t) == Avl(t2)
    ensures Avl(Plug(path, t)) == Avl(Plug(path, t2))
    decreases |path|
  {
    if |path| > 0 {
      AvlSameHeights(Rest(path), Fill(Last(path), t), Fill(Last(path), t2));
    }
  }

  /** Inserting where a path of a balanced tree ends gives a balanced tree. */
  lemma InsertKeepsAvl(path: seq<Crumb>, p: Ptr)
    requires Avl(Plug(path, Leaf))
    ensures Avl(Inserted(path, p))
  {
    AvlBump(path, Leaf, 1);
    BalanceUpAvl(Bump(path, 1), Leaf, Node(Leaf, p, 0, 1, Leaf));
  }

  /** Inserting puts exactly the new element between what lies before and after
      the place, and keeps stored sizes exact. */
  lemma InsertedElements(path: seq<Crumb>, p: Ptr)
    ensures InOrder(Inserted(path, p)) == Before(path) + [p] + After(path)
    ensures SizesExact(Plug(path, Leaf)) ==> SizesExact(Inserted(path, p))
    ensures Weak(Plug(path, Leaf)) || WeakPath(path) ==> Weak(Inserted(path, p))
  {
    var leaf := Node(Leaf, p, 0, 1, Leaf);
    assert InOrder(leaf) == [p];
    BumpShape(path, 1);
    BalanceUpKeeps(Bump(path, 1), leaf);
    if SizesExact(Plug(path, Leaf)) {
      SizesAfterBump(path, Leaf, leaf, 1);
    }
    if Weak(Plug(path, Leaf)) {
      WeakUnplug(path, Leaf);
    }
    if WeakPath(path) {
      BalanceUpWeak(Bump(path, 1), leaf);
    }
  }
}
