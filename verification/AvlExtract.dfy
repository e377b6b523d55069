/** Taking an element out of a tree, key order, neighbours in the in-order
    sequence, and how long a path can get. */
module AvlExtract {
  import opened AvlShape

  // ----- extraction -----

  function RightSpine(t: Tree): (r: (seq<Crumb>, Tree))
    requires t.Node?
    ensures r.1.Node? && r.1.right.Leaf?
  {
    if t.right.Leaf? then ([], t)
    else ([WentRight(t.left, t.ptr, t.height, t.size)] + RightSpine(t.right).0, RightSpine(t.right).1)
  }

  function LeftSpine(t: Tree): (r: (seq<Crumb>, Tree))
    requires t.Node?
    ensures r.1.Node? && r.1.left.Leaf?
  {
    if t.left.Leaf? then ([], t)
    else ([WentLeft(t.ptr, t.height, t.size, t.right)] + LeftSpine(t.left).0, LeftSpine(t.left).1)
  }

  /** The replacement is taken from the higher subtree, from the right one when
      both stored heights are equal. */
  predicate ReplacesFromLeft(t: Tree)
    requires t.Node?
  {
    if t.left.Node? && t.right.Node? then H(t.left) > H(t.right) else t.left.Node?
  }

  /** The path to the place the replacement came from, with the replacement
      already standing where the deleted element was, and the subtree left there. */
  function ExtractPath(path: seq<Crumb>, t: Tree): (seq<Crumb>, Tree)
    requires t.Node?
  {
    if t.left.Leaf? && t.right.Leaf? then (path, Leaf)
    else if ReplacesFromLeft(t) then
      var (spine, last) := RightSpine(t.left);
      (path + [WentLeft(last.ptr, t.height, t.size, t.right)] + spine, last.left)
    else
      var (spine, last) := LeftSpine(t.right);
      (path + [WentRight(t.left, last.ptr, t.height, t.size)] + spine, last.right)
  }

  /** jr_AVL_TreeExtractPathEnd. */
  function Extracted(path: seq<Crumb>, t: Tree): Tree
    requires t.Node?
  {
    var (p, hole) := ExtractPath(path, t);
    BalanceUp(Bump(p, -1), hole)
  }

  lemma PlugCons(c: Crumb, path: seq<Crumb>, t: Tree)
    ensures Plug([c] + path, t) == Fill(c, Plug(path, t))
  {
    PlugConcat([c], path, t);
    assert Rest([c]) == [];
  }

  lemma {:induction false} RightSpinePlugs(t: Tree)
    requires t.Node?
    ensures Plug(RightSpine(t).0, RightSpine(t).1) == t
    ensures After(RightSpine(t).0) == []
  {
    if t.right.Node? {
      RightSpinePlugs(t.right);
      var (spine, last) := RightSpine(t.right);
      var c := WentRight(t.left, t.ptr, t.height, t.size);
      PlugCons(c, spine, last);
      AfterCons(c, spine);
    }
  }

  lemma {:induction false} LeftSpinePlugs(t: Tree)
    requires t.Node?
    ensures Plug(LeftSpine(t).0, LeftSpine(t).1) == t
    ensures Before(LeftSpine(t).0) == []
  {
    if t.left.Node? {
      LeftSpinePlugs(t.left);
      var (spine, last) := LeftSpine(t.left);
      var c := WentLeft(t.ptr, t.height, t.size, t.right);
      PlugCons(c, spine, last);
      BeforeCons(c, spine);
    }
  }

  lemma {:induction false} AfterCons(c: Crumb, path: seq<Crumb>)
    ensures After([c] + path) == After(path) + CrumbAfter(c)
    decreases |path|
  {
    hide CrumbAfter;
    if |path| == 0 {
      assert [c] + path == [c];
      assert Rest([c]) == [];
    } else {
      AfterCons(c, Rest(path));
      assert Rest([c] + path) == [c] + Rest(path);
      assert CrumbAfter(Last(path)) + (After(Rest(path)) + CrumbAfter(c)) == After(path) + CrumbAfter(c);
    }
  }

  lemma {:induction false} BeforeCons(c: Crumb, path: seq<Crumb>)
    ensures Before([c] + path) == CrumbBefore(c) + Before(path)
    decreases |path|
  {
    hide CrumbBefore;
    if |path| == 0 {
      assert [c] + path == [c];
      assert Rest([c]) == [];
    } else {
      BeforeCons(c, Rest(path));
      assert Rest([c] + path) == [c] + Rest(path);
      assert (CrumbBefore(c) + Before(Rest(path))) + CrumbBefore(Last(path)) == CrumbBefore(c) + Before(path);
    }
  }

  lemma {:induction false} BeforeConcat(path: seq<Crumb>, more: seq<Crumb>)
    ensures Before(path + more) == Before(path) + Before(more)
    ensures After(path + more) == After(more) + After(path)
    decreases |more|
  {
    hide CrumbBefore, CrumbAfter;
    if |more| == 0 {
      assert path + more == path;
    } else {
      BeforeConcat(path, Rest(more));
      assert Rest(path + more) == path + Rest(more);
      var c := Last(more);
      assert (Before(path) + Before(Rest(more))) + CrumbBefore(c) == Before(path) + Before(more);
      assert CrumbAfter(c) + (After(Rest(more)) + After(path)) == After(more) + After(path);
    }
  }

  lemma FromLeft(path: seq<Crumb>, t: Tree)
    requires t.Node? && t.left.Node? && (t.right.Leaf? || H(t.left) > H(t.right))
    ensures var (spine, last) := RightSpine(t.left);
            && ExtractPath(path, t) == (path + [WentLeft(last.ptr, t.height, t.size, t.right)] + spine, last.left)
            && Plug(spine, last) == t.left && After(spine) == []
            && InOrder(t.left) == Before(spine) + InOrder(last.left) + [last.ptr]
  {
    hide Plug, Before, After;
    var (spine, last) := RightSpine(t.left);
    RightSpinePlugs(t.left);
    PlugInOrder(spine, last);
  }

  lemma FromRight(path: seq<Crumb>, t: Tree)
    requires t.Node? && t.right.Node? && (t.left.Leaf? || H(t.left) <= H(t.right))
    ensures var (spine, last) := LeftSpine(t.right);
            && ExtractPath(path, t) == (path + [WentRight(t.left, last.ptr, t.height, t.size)] + spine, last.right)
            && Plug(spine, last) == t.right && Before(spine) == []
            && InOrder(t.right) == [last.ptr] + InOrder(last.right) + After(spine)
  {
    hide Plug, Before, After;
    var (spine, last) := LeftSpine(t.right);
    LeftSpinePlugs(t.right);
    PlugInOrder(spine, last);
  }

  /** What stands in the place of an extracted element that had children: its
      neighbour from the higher one, from the right one when both are equally high,
      with the height, the size and the other child that were there. */
  lemma Replacement(path: seq<Crumb>, t: Tree)
    requires t.Node?
    ensures var (p, hole) := ExtractPath(path, t);
            && path <= p
            && (t.left.Leaf? && t.right.Leaf? ==> p == path && hole.Leaf?)
            && (t.left.Node? || t.right.Node? ==> |p| > |path|)
            && (t.left.Node? && (t.right.Leaf? || H(t.left) > H(t.right)) ==>
                  InOrder(t.left) != [] && p[|path|] == WentLeft(InOrder(t.left)[|InOrder(t.left)| - 1], t.height, t.size, t.right))
            && (t.right.Node? && (t.left.Leaf? || H(t.left) <= H(t.right)) ==>
                  InOrder(t.right) != [] && p[|path|] == WentRight(t.left, InOrder(t.right)[0], t.height, t.size))
  {
    if t.left.Node? && (t.right.Leaf? || H(t.left) > H(t.right)) {
      FromLeft(path, t);
      hide ExtractPath, InOrder, RightSpine;
    } else if t.right.Node? {
      FromRight(path, t);
      hide ExtractPath, InOrder, LeftSpine;
    }
  }

  /** The elements around the hole are all but the extracted one. */
  lemma HoleElements(path: seq<Crumb>, t: Tree)
    requires t.Node?
    ensures var (p, hole) := ExtractPath(path, t);
            Before(p) + InOrder(hole) + After(p) == Before(path) + InOrder(t.left) + InOrder(t.right) + After(path)
  {
    if t.left.Leaf? && t.right.Leaf? {
    } else if ReplacesFromLeft(t) {
      var (spine, last) := RightSpine(t.left);
      RightSpinePlugs(t.left);
      PlugInOrder(spine, last);
      var c := WentLeft(last.ptr, t.height, t.size, t.right);
      BeforeConcat(path, [c]);
      BeforeConcat(path + [c], spine);
      assert Before([c]) == [] && After([c]) == CrumbAfter(c);
      LeftSplice(Before(path), Before(spine), InOrder(last.left), last.ptr, InOrder(t.right), After(path));
    } else {
      var (spine, last) := LeftSpine(t.right);
      LeftSpinePlugs(t.right);
      PlugInOrder(spine, last);
      var c := WentRight(t.left, last.ptr, t.height, t.size);
      BeforeConcat(path, [c]);
      BeforeConcat(path + [c], spine);
      assert Before([c]) == CrumbBefore(c) && After([c]) == [];
      RightSplice(Before(path), InOrder(t.left), last.ptr, InOrder(last.right), After(spine), After(path));
    }
  }

  lemma LeftSplice(a: seq<Ptr>, s: seq<Ptr>, m: seq<Ptr>, p: Ptr, r: seq<Ptr>, z: seq<Ptr>)
    ensures (a + [] + s) + m + ([] + (([p] + r) + z)) == a + (s + (m + [p] + []) + []) + r + z
  {
  }

  lemma RightSplice(a: seq<Ptr>, l: seq<Ptr>, p: Ptr, m: seq<Ptr>, s: seq<Ptr>, z: seq<Ptr>)
    ensures (a + (l + [p]) + []) + m + (s + ([] + z)) == a + l + ([] + ([] + [p] + m) + s) + z
  {
  }

  lemma {:induction false} SpineWeak(t: Tree)
    requires t.Node? && Weak(t)
    ensures WeakPath(RightSpine(t).0) && Weak(RightSpine(t).1)
    ensures WeakPath(LeftSpine(t).0) && Weak(LeftSpine(t).1)
  {
    RightSpinePlugs(t);
    LeftSpinePlugs(t);
    WeakUnplug(RightSpine(t).0, RightSpine(t).1);
    WeakUnplug(LeftSpine(t).0, LeftSpine(t).1);
  }

  lemma HoleWeak(path: seq<Crumb>, t: Tree)
    requires t.Node? && WeakPath(path) && Weak(t)
    ensures var (p, hole) := ExtractPath(path, t); WeakPath(p) && Weak(hole)
  {
    if t.left.Node? {
      SpineWeak(t.left);
    }
    if t.right.Node? {
      SpineWeak(t.right);
    }
  }

  lemma HoleSizes(path: seq<Crumb>, t: Tree)
    requires t.Node? && SizesExact(Plug(path, t))
    ensures var (p, hole) := ExtractPath(path, t); SizesExact(Plug(Bump(p, -1), hole))
  {
    SizesExactAtHole(path, t);
    if t.left.Leaf? && t.right.Leaf? {
      SizesAfterBump(path, t, Leaf, -1);
    } else if ReplacesFromLeft(t) {
      var (spine, last) := RightSpine(t.left);
      var c := WentLeft(last.ptr, t.height, t.size, t.right);
      RightSpinePlugs(t.left);
      SizesReplaced(path, t, Fill(c, t.left));
      HoleShrinks(path, c, spine, last, last.left);
    } else {
      var (spine, last) := LeftSpine(t.right);
      var c := WentRight(t.left, last.ptr, t.height, t.size);
      LeftSpinePlugs(t.right);
      SizesReplaced(path, t, Fill(c, t.right));
      HoleShrinks(path, c, spine, last, last.right);
    }
  }

  lemma HoleShrinks(path: seq<Crumb>, c: Crumb, spine: seq<Crumb>, last: Tree, hole: Tree)
    requires last.Node? && |InOrder(hole)| == |InOrder(last)| - 1
    requires hole == last.left || hole == last.right
    requires SizesExact(Plug(path, Fill(c, Plug(spine, last))))
    ensures SizesExact(Plug(Bump(path + [c] + spine, -1), hole))
  {
    var p := path + [c] + spine;
    PlugConcat(path + [c], spine, last);
    PlugConcat(path, [c], Plug(spine, last));
    PlugCons(c, [], Plug(spine, last));
    assert [c] + [] == [c];
    assert Plug(p, last) == Plug(path, Fill(c, Plug(spine, last)));
    SizesExactAtHole(p, last);
    SizesAfterBump(p, last, hole, -1);
  }

  /** Extraction removes exactly the element at the end of the path; exact sizes
      and weak heights survive. */
  lemma ExtractedElements(path: seq<Crumb>, t: Tree)
    requires t.Node?
    ensures InOrder(Plug(path, t)) == (Before(path) + InOrder(t.left)) + [t.ptr] + (InOrder(t.right) + After(path))
    ensures InOrder(Extracted(path, t)) == (Before(path) + InOrder(t.left)) + (InOrder(t.right) + After(path))
    ensures SizesExact(Plug(path, t)) ==> SizesExact(Extracted(path, t))
    ensures Weak(Plug(path, t)) ==> Weak(Extracted(path, t))
  {
    var (p, hole) := ExtractPath(path, t);
    PlugInOrder(path, t);
    HoleElements(path, t);
    BumpShape(p, -1);
    BalanceUpKeeps(Bump(p, -1), hole);
    ExtractedRegroup(Before(path), InOrder(t.left), t.ptr, InOrder(t.right), After(path));
    if SizesExact(Plug(path, t)) {
      HoleSizes(path, t);
    }
    if Weak(Plug(path, t)) {
      WeakUnplug(path, t);
      HoleWeak(path, t);
      BalanceUpWeak(Bump(p, -1), hole);
    }
  }

  lemma ExtractedRegroup(a: seq<Ptr>, l: seq<Ptr>, p: Ptr, r: seq<Ptr>, z: seq<Ptr>)
    ensures a + (l + [p] + r) + z == (a + l) + [p] + (r + z)
    ensures a + l + r + z == (a + l) + (r + z)
  {
  }

  // ----- key order -----

  /** Keys strictly increase along the sequence. */
  ghost predicate Sorted(s: seq<Ptr>, key: Ptr -> int) {
    forall i, j :: 0 <= i < j < |s| ==> key(s[i]) < key(s[j])
  }

  ghost predicate AllBelow(s: seq<Ptr>, key: Ptr -> int, k: int) {
    forall i :: 0 <= i < |s| ==> key(s[i]) < k
  }

  ghost predicate AllAbove(s: seq<Ptr>, key: Ptr -> int, k: int) {
    forall i :: 0 <= i < |s| ==> k < key(s[i])
  }

  lemma SortedWithInserted(a: seq<Ptr>, p: Ptr, b: seq<Ptr>, key: Ptr -> int)
    requires Sorted(a + b, key) && AllBelow(a, key, key(p)) && AllAbove(b, key, key(p))
    ensures Sorted(a + [p] + b, key)
  {
    var s, r := a + b, a + [p] + b;
    forall i, j | 0 <= i < j < |r|
      ensures key(r[i]) < key(r[j])
    {
      var i', j' := if i <= |a| then i else i - 1, if j <= |a| then j else j - 1;
      if i != |a| && j != |a| {
        assert r[i] == s[i'] && r[j] == s[j'];
      } else if i == |a| {
        assert r[j] == b[j - |a| - 1];
      } else {
        assert r[i] == a[i];
      }
    }
  }

  lemma SortedWithout(a: seq<Ptr>, p: Ptr, b: seq<Ptr>, key: Ptr -> int)
    requires Sorted(a + [p] + b, key)
    ensures Sorted(a + b, key)
  {
    var s, r := a + b, a + [p] + b;
    forall i, j | 0 <= i < j < |s|
      ensures key(s[i]) < key(s[j])
    {
      assert s[i] == r[if i < |a| then i else i + 1];
      assert s[j] == r[if j < |a| then j else j + 1];
    }
  }

  /** Going left or right by comparison leaves only smaller elements before the
      place and only greater ones after it. */
  lemma DescendKeepsBounds(path: seq<Crumb>, t: Tree, key: Ptr -> int, k: int)
    requires t.Node? && Sorted(InOrder(Plug(path, t)), key)
    requires AllBelow(Before(path), key, k) && AllAbove(After(path), key, k)
    ensures k < key(t.ptr) ==> AllAbove([t.ptr] + InOrder(t.right) + After(path), key, k)
    ensures k > key(t.ptr) ==> AllBelow(Before(path) + (InOrder(t.left) + [t.ptr]), key, k)
  {
    hide InOrder, Plug, Before, After, AllBelow, AllAbove;
    PlugInOrder(path, t);
    NodeInOrder(t);
    BoundsAround(Before(path), InOrder(t.left), t.ptr, InOrder(t.right), After(path), key, k);
  }

  lemma NodeInOrder(t: Tree)
    requires t.Node?
    ensures InOrder(t) == InOrder(t.left) + [t.ptr] + InOrder(t.right)
  {
  }

  lemma BoundsAround(a: seq<Ptr>, l: seq<Ptr>, p: Ptr, r: seq<Ptr>, z: seq<Ptr>, key: Ptr -> int, k: int)
    requires Sorted(a + (l + [p] + r) + z, key)
    ensures k < key(p) ==> AllAbove([p] + r + z, key, k)
    ensures k > key(p) ==> AllBelow(a + (l + [p]), key, k)
  {
    var s := a + (l + [p] + r) + z;
    var n := |a| + |l|;
    var before, after := a + (l + [p]), [p] + r + z;
    assert s == before + (r + z) && s == (a + l) + after;
    forall i | 0 <= i < |after|
      ensures key(p) <= key(after[i])
    {
      assert after[i] == s[n + i] && s[n] == p;
    }
    forall i | 0 <= i < |before|
      ensures key(before[i]) <= key(p)
    {
      assert before[i] == s[i] && s[n] == p;
    }
  }

  // ----- the longest path -----

  ghost function Fib(n: nat): nat {
    if n < 2 then n else Fib(n - 1) + Fib(n - 2)
  }

  lemma {:induction false} FibGrows(m: nat, n: nat)
    requires m <= n
    ensures Fib(m) <= Fib(n)
    decreases n
  {
    if m < n {
      FibGrows(m, n - 1);
    }
  }

  /** A balanced tree of height h has at least Fib(h + 3) - 1 elements. */
  lemma {:induction false} AvlElementCount(t: Tree)
    requires Avl(t)
    ensures Height(t) >= -1
    ensures |InOrder(t)| + 1 >= Fib(Height(t) + 3)
  {
    if t.Node? {
      AvlHeights(t.left);
      AvlHeights(t.right);
      AvlElementCount(t.left);
      AvlElementCount(t.right);
      CountNode(t);
    }
  }

  lemma CountNode(t: Tree)
    requires t.Node? && Avl(t)
    requires H(t) == Height(t) && H(t.left) == Height(t.left) >= -1 && H(t.right) == Height(t.right) >= -1
    requires |InOrder(t.left)| + 1 >= Fib(Height(t.left) + 3) && |InOrder(t.right)| + 1 >= Fib(Height(t.right) + 3)
    ensures |InOrder(t)| + 1 >= Fib(Height(t) + 3)
  {
    hide Avl, Fib;
    var h, l, r := Height(t), Height(t.left), Height(t.right);
    NodeHeights(t);
    FibGrows(h + 1, l + 3);
    FibGrows(h + 1, r + 3);
    FibSum(h + 1);
  }

  lemma NodeHeights(t: Tree)
    requires t.Node? && Avl(t)
    ensures H(t) == 1 + Max(H(t.left), H(t.right)) && -1 <= H(t.left) - H(t.right) <= 1
    ensures |InOrder(t)| == |InOrder(t.left)| + 1 + |InOrder(t.right)|
  {
  }

  lemma FibSum(n: nat)
    ensures Fib(n + 2) == Fib(n + 1) + Fib(n)
  {
  }

  lemma {:induction false} PathWithinHeight(path: seq<Crumb>, t: Tree)
    ensures Height(Plug(path, t)) >= |path| + Height(t)
    decreases |path|
  {
    if |path| > 0 {
      PathWithinHeight(Rest(path), Fill(Last(path), t));
    }
  }

  lemma {:induction false} FibTriples(n: nat)
    ensures Fib(n + 6) == 8 * Fib(n + 1) + 5 * Fib(n)
    ensures Fib(n + 7) == 13 * Fib(n + 1) + 8 * Fib(n)
  {
    assert Fib(n + 3) == Fib(n + 2) + Fib(n + 1);
    assert Fib(n + 4) == Fib(n + 3) + Fib(n + 2);
    assert Fib(n + 5) == Fib(n + 4) + Fib(n + 3);
  }

  lemma FibStart()
    ensures Fib(3) == 2 && Fib(4) == 3
  {
  }

  lemma FibBounds()
    ensures Fib(51) > 0x1_0000_0000
    ensures Fib(99) > 0x1_0000_0000_0000_0000
  {
    hide Fib;
    FibStart();
    FibTriples(3);
    FibTriples(9);
    FibTriples(15);
    FibTriples(21);
    FibTriples(27);
    FibTriples(33);
    FibTriples(39);
    FibTriples(45);
    FibTriples(51);
    FibTriples(57);
    FibTriples(63);
    FibTriples(69);
    FibTriples(75);
    FibTriples(81);
    FibTriples(87);
    FibTriples(93);
  }

  /** The path arrays have 12 slots for each byte of a pointer. In a balanced
      tree whose elements can be told apart by pointers of that size, no path
      needs more. */
  lemma PathFits(path: seq<Crumb>, t: Tree, pointerBytes: nat)
    requires Avl(Plug(path, t)) && Avl(t)
    requires pointerBytes == 4 || pointerBytes == 8
    requires |InOrder(Plug(path, t))| < if pointerBytes == 4 then 0x1_0000_0000 else 0x1_0000_0000_0000_0000
    ensures |path| + Height(t) + 1 <= 12 * pointerBytes
  {
    hide Fib, InOrder, Plug, Avl, Height;
    var whole := Plug(path, t);
    var slots := 12 * pointerBytes;
    PathWithinHeight(path, t);
    AvlElementCount(whole);
    FibBounds();
    if Height(whole) >= slots {
      FibGrows(slots + 3, Height(whole) + 3);
    }
  }
}
