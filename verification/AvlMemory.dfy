/** How a tree lies in memory: every element has a cell with its child
    pointers, height and size, and a pointer may be followed only to a cell. */
module AvlMemory {
  import opened Sequences
  import opened AvlShape

  /** The fields kept in front of an element. */
  datatype Cell = Cell(left: Ptr, right: Ptr, height: int, size: int)

  type Memory = map<Ptr, Cell>

  /** The tree found by following pointers from p. */
  ghost predicate Rep(mem: Memory, p: Ptr, t: Tree)
    decreases t
  {
    match t
    case Leaf => p == 0
    case Node(l, q, h, s, r) =>
      && p == q && p != 0 && p in mem
      && mem[p].height == h && mem[p].size == s
      && Rep(mem, mem[p].left, l) && Rep(mem, mem[p].right, r)
  }

  /** The path found from the root, with p stored at the place it leads to. */
  ghost predicate RepPath(mem: Memory, root: Ptr, path: seq<Crumb>, p: Ptr)
    decreases |path|
  {
    if |path| == 0 then root == p
    else
      var c := Last(path);
      && c.ptr != 0 && c.ptr in mem
      && mem[c.ptr].height == c.height && mem[c.ptr].size == c.size
      && (if c.WentLeft? then mem[c.ptr].left == p && Rep(mem, mem[c.ptr].right, c.right)
          else mem[c.ptr].right == p && Rep(mem, mem[c.ptr].left, c.left))
      && RepPath(mem, root, Rest(path), c.ptr)
  }

  ghost predicate SameOn(mem: Memory, mem2: Memory, s: seq<Ptr>) {
    forall q :: q in s ==> q in mem && q in mem2 && mem[q] == mem2[q]
  }

  // ----- sequences without duplicates -----

  lemma NoDupSplit(a: seq<Ptr>, b: seq<Ptr>)
    requires NoDup(a + b)
    ensures NoDup(a) && NoDup(b)
    ensures forall x :: x in a ==> x !in b
  {
    var s := a + b;
    forall i, j | 0 <= i < j < |a|
      ensures a[i] != a[j]
    {
      assert s[i] == a[i] && s[j] == a[j];
    }
    forall i, j | 0 <= i < j < |b|
      ensures b[i] != b[j]
    {
      assert s[|a| + i] == b[i] && s[|a| + j] == b[j];
    }
    forall x | x in a
      ensures x !in b
    {
      var i :| 0 <= i < |a| && a[i] == x;
      forall j | 0 <= j < |b|
        ensures b[j] != x
      {
        assert s[i] == x && s[|a| + j] == b[j];
      }
    }
  }

  lemma NoDupJoin(a: seq<Ptr>, b: seq<Ptr>)
    requires NoDup(a) && NoDup(b) && forall x :: x in a ==> x !in b
    ensures NoDup(a + b)
  {
    var s := a + b;
    forall i, j | 0 <= i < j < |s|
      ensures s[i] != s[j]
    {
      if i < |a| <= j {
        assert s[i] in a && s[j] in b;
      }
    }
  }

  lemma NoDupInserted(a: seq<Ptr>, p: Ptr, b: seq<Ptr>)
    requires NoDup(a + b) && p !in a + b
    ensures NoDup(a + [p] + b)
    ensures forall x :: x in a + [p] + b ==> x == p || x in a + b
  {
    NoDupSplit(a, b);
    assert forall x :: x in a || x in b ==> x in a + b;
    NoDupJoin(a, [p]);
    NoDupJoin(a + [p], b);
  }

  /** Around a node: it, the two subtrees and the rest do not share elements. */
  lemma NodeParts(t: Tree)
    requires t.Node? && NoDup(InOrder(t))
    ensures NoDup(InOrder(t.left)) && NoDup(InOrder(t.right))
    ensures t.ptr !in InOrder(t.left) && t.ptr !in InOrder(t.right)
    ensures forall x :: x in InOrder(t.left) ==> x !in InOrder(t.right)
  {
    var l, r := InOrder(t.left), InOrder(t.right);
    NoDupSplit(l + [t.ptr], r);
    NoDupSplit(l, [t.ptr]);
    assert t.ptr in l + [t.ptr] && forall x :: x in l ==> x in l + [t.ptr];
  }

  /** The elements before and after the place a path leads to. */
  ghost function Around(path: seq<Crumb>): seq<Ptr> {
    Before(path) + After(path)
  }

  lemma PathParts(path: seq<Crumb>, t: Tree)
    requires NoDup(InOrder(Plug(path, t)))
    ensures NoDup(InOrder(t)) && NoDup(Around(path))
    ensures forall x :: x in InOrder(t) ==> x !in Around(path)
  {
    PlugInOrder(path, t);
    SurroundedParts(Before(path), InOrder(t), After(path));
  }

  /** Around the last step of a path. */
  lemma CrumbParts(path: seq<Crumb>)
    requires |path| > 0 && NoDup(Around(path))
    ensures NoDup(Around(Rest(path)))
    ensures Last(path).ptr !in InOrder(Sibling(Last(path)))
    ensures Last(path).ptr !in Around(Rest(path))
    ensures forall x :: x in InOrder(Sibling(Last(path))) ==> x !in Around(Rest(path))
  {
    var s := InOrder(Fill(Last(path), Leaf));
    FillParts(Last(path));
    AroundRest(path);
    SurroundedParts(Before(Rest(path)), s, After(Rest(path)));
  }

  lemma AroundRest(path: seq<Crumb>)
    requires |path| > 0
    ensures Around(path) == Before(Rest(path)) + InOrder(Fill(Last(path), Leaf)) + After(Rest(path))
    ensures Last(path).ptr in Around(path)
    ensures forall x :: x in InOrder(Sibling(Last(path))) || x in Around(Rest(path)) ==> x in Around(path)
  {
    hide Fill, InOrder, CrumbBefore, CrumbAfter;
    var c := Last(path);
    var a, z := Before(Rest(path)), After(Rest(path));
    var s := InOrder(Fill(c, Leaf));
    FillParts(c);
    Regroup(a, CrumbBefore(c), [], CrumbAfter(c), z);
    assert Before(path) + [] == Before(path);
    assert forall x :: x in a || x in s || x in z ==> x in a + s + z;
  }

  lemma FillParts(c: Crumb)
    ensures InOrder(Fill(c, Leaf)) == CrumbBefore(c) + [] + CrumbAfter(c)
    ensures var s := InOrder(Fill(c, Leaf));
            && c.ptr in s && (forall x :: x in InOrder(Sibling(c)) ==> x in s)
            && (NoDup(s) ==> c.ptr !in InOrder(Sibling(c)))
  {
    var n := Fill(c, Leaf);
    assert InOrder(Leaf) == [];
    if NoDup(InOrder(n)) {
      NodeParts(n);
    }
  }

  lemma SurroundedParts(a: seq<Ptr>, m: seq<Ptr>, z: seq<Ptr>)
    requires NoDup(a + m + z)
    ensures NoDup(a + z) && NoDup(m)
    ensures forall x :: x in m ==> x !in a && x !in z && x in a + m + z
    ensures forall x :: x in a + z ==> x in a + m + z
  {
    NoDupSplit(a + m, z);
    NoDupSplit(a, m);
    assert forall x :: x in a || x in m ==> x in a + m;
    NoDupJoin(a, z);
  }

  // ----- memory outside a tree or path does not matter -----

  lemma {:induction false} RepFrame(mem: Memory, mem2: Memory, p: Ptr, t: Tree)
    requires Rep(mem, p, t) && SameOn(mem, mem2, InOrder(t))
    ensures Rep(mem2, p, t)
    decreases t
  {
    if t.Node? {
      assert t.ptr in InOrder(t);
      assert SameOn(mem, mem2, InOrder(t.left)) && SameOn(mem, mem2, InOrder(t.right));
      RepFrame(mem, mem2, mem[p].left, t.left);
      RepFrame(mem, mem2, mem[p].right, t.right);
    }
  }

  lemma {:induction false} RepPathFrame(mem: Memory, mem2: Memory, root: Ptr, path: seq<Crumb>, p: Ptr)
    requires RepPath(mem, root, path, p)
    requires SameOn(mem, mem2, Around(path))
    ensures RepPath(mem2, root, path, p)
    decreases |path|
  {
    if |path| > 0 {
      var c := Last(path);
      AroundRest(path);
      if c.WentLeft? {
        RepFrame(mem, mem2, mem[c.ptr].right, c.right);
      } else {
        RepFrame(mem, mem2, mem[c.ptr].left, c.left);
      }
      RepPathFrame(mem, mem2, root, Rest(path), c.ptr);
    }
  }

  lemma {:induction false} RepPlug(mem: Memory, root: Ptr, path: seq<Crumb>, p: Ptr, t: Tree)
    requires RepPath(mem, root, path, p) && Rep(mem, p, t)
    ensures Rep(mem, root, Plug(path, t))
    decreases |path|
  {
    if |path| > 0 {
      RepPlug(mem, root, Rest(path), Last(path).ptr, Fill(Last(path), t));
    }
  }

  /** One step down from a node. */
  lemma StepDown(mem: Memory, root: Ptr, path: seq<Crumb>, t: Tree, left: bool)
    requires t.Node? && RepPath(mem, root, path, t.ptr) && Rep(mem, t.ptr, t)
    ensures var c := if left then WentLeft(t.ptr, t.height, t.size, t.right) else WentRight(t.left, t.ptr, t.height, t.size);
            var sub := if left then t.left else t.right;
            var q := if left then mem[t.ptr].left else mem[t.ptr].right;
            && RepPath(mem, root, path + [c], q) && Rep(mem, q, sub)
            && Plug(path + [c], sub) == Plug(path, t)
            && Before(path + [c]) == Before(path) + CrumbBefore(c)
            && After(path + [c]) == CrumbAfter(c) + After(path)
  {
    var c := if left then WentLeft(t.ptr, t.height, t.size, t.right) else WentRight(t.left, t.ptr, t.height, t.size);
    assert Rest(path + [c]) == path;
  }

  // ----- changes at the end of a path -----

  /** The parent's child field, or the root, made to hold another pointer. */
  function Linked(mem: Memory, path: seq<Crumb>, q: Ptr): Memory
    requires |path| > 0 ==> Last(path).ptr in mem
  {
    if |path| == 0 then mem
    else
      var c := Last(path);
      mem[c.ptr := if c.WentLeft? then mem[c.ptr].(left := q) else mem[c.ptr].(right := q)]
  }

  lemma Redirect(mem: Memory, root: Ptr, path: seq<Crumb>, p: Ptr, q: Ptr)
    requires RepPath(mem, root, path, p) && NoDup(Around(path))
    ensures |path| > 0 ==> Last(path).ptr in mem
    ensures RepPath(Linked(mem, path, q), if |path| == 0 then q else root, path, q)
  {
    if |path| > 0 {
      var c := Last(path);
      var mem2 := Linked(mem, path, q);
      CrumbParts(path);
      AroundRest(path);
      PathInMemory(mem, root, path, p);
      if c.WentLeft? {
        RepFrame(mem, mem2, mem[c.ptr].right, c.right);
      } else {
        RepFrame(mem, mem2, mem[c.ptr].left, c.left);
      }
      RepPathFrame(mem, mem2, root, Rest(path), c.ptr);
    }
  }

  lemma {:induction false} TreeInMemory(mem: Memory, p: Ptr, t: Tree)
    requires Rep(mem, p, t)
    ensures forall x :: x in InOrder(t) ==> x in mem && x != 0
    decreases t
  {
    if t.Node? {
      TreeInMemory(mem, mem[p].left, t.left);
      TreeInMemory(mem, mem[p].right, t.right);
    }
  }

  lemma InAround(path: seq<Crumb>)
    requires |path| > 0
    ensures forall x :: x in Around(path) ==> x == Last(path).ptr || x in InOrder(Sibling(Last(path))) || x in Around(Rest(path))
  {
    AroundRest(path);
  }

  lemma {:induction false} PathInMemory(mem: Memory, root: Ptr, path: seq<Crumb>, p: Ptr)
    requires RepPath(mem, root, path, p)
    ensures forall x :: x in Around(path) ==> x in mem && x != 0
    decreases |path|
  {
    if |path| > 0 {
      var c := Last(path);
      PathInMemory(mem, root, Rest(path), c.ptr);
      InAround(path);
      if c.WentLeft? {
        TreeInMemory(mem, mem[c.ptr].right, c.right);
      } else {
        TreeInMemory(mem, mem[c.ptr].left, c.left);
      }
    }
  }

  /** Changing the size stored in the last element of a path. */
  lemma ResizeLast(mem: Memory, root: Ptr, path: seq<Crumb>, p: Ptr, s: int)
    requires RepPath(mem, root, path, p) && |path| > 0 && NoDup(Around(path))
    ensures var c := Last(path);
            RepPath(mem[c.ptr := mem[c.ptr].(size := s)], root, Rest(path) + [c.(size := s)], p)
  {
    hide Around, NoDup, Before, After;
    var c := Last(path);
    CrumbParts(path);
    AroundRest(path);
    PathInMemory(mem, root, path, p);
    var mem2 := mem[c.ptr := mem[c.ptr].(size := s)];
    assert Rest(Rest(path) + [c.(size := s)]) == Rest(path);
    RepFrame(mem, mem2, if c.WentLeft? then mem[c.ptr].right else mem[c.ptr].left, Sibling(c));
    RepPathFrame(mem, mem2, root, Rest(path), c.ptr);
  }

  /** A change elsewhere on the path leaves its last step as it is. */
  lemma LastUnchanged(mem: Memory, mem2: Memory, root2: Ptr, path: seq<Crumb>, p: Ptr, rest2: seq<Crumb>, root: Ptr)
    requires RepPath(mem, root, path, p) && |path| > 0
    requires SameOn(mem, mem2, InOrder(Sibling(Last(path)))) && SameOn(mem, mem2, [Last(path).ptr])
    requires RepPath(mem2, root2, rest2, Last(path).ptr)
    ensures RepPath(mem2, root2, rest2 + [Last(path)], p)
  {
    var c := Last(path);
    assert c.ptr in [c.ptr];
    assert Rest(rest2 + [c]) == rest2;
    RepFrame(mem, mem2, if c.WentLeft? then mem[c.ptr].right else mem[c.ptr].left, Sibling(c));
  }

  /** Changing the size stored in one element of a path. */
  lemma {:induction false} ResizeOne(mem: Memory, root: Ptr, path: seq<Crumb>, p: Ptr, i: nat, s: int)
    requires RepPath(mem, root, path, p) && i < |path| && NoDup(Around(path))
    ensures path[i].ptr in mem && path[i].ptr in Around(path)
    ensures RepPath(mem[path[i].ptr := mem[path[i].ptr].(size := s)], root, path[i := path[i].(size := s)], p)
    decreases |path|
  {
    hide Around, NoDup, Before, After;
    var c := Last(path);
    var rest := Rest(path);
    CrumbParts(path);
    AroundRest(path);
    PathInMemory(mem, root, path, p);
    if i == |path| - 1 {
      ResizeLast(mem, root, path, p, s);
      assert rest + [c.(size := s)] == path[i := path[i].(size := s)];
    } else {
      assert rest[i] == path[i];
      ResizeOne(mem, root, rest, c.ptr, i, s);
      var mem2 := mem[path[i].ptr := mem[path[i].ptr].(size := s)];
      var rest2 := rest[i := path[i].(size := s)];
      assert rest2 + [c] == path[i := path[i].(size := s)];
      hide RepPath;
      LastUnchanged(mem, mem2, root, path, p, rest2, root);
    }
  }

  lemma {:induction false} BumpAt(path: seq<Crumb>, d: int)
    ensures forall i :: 0 <= i < |path| ==> Bump(path, d)[i] == path[i].(size := path[i].size + d)
    decreases |path|
  {
    if |path| > 0 {
      BumpAt(Rest(path), d);
    }
  }

  /** Changing the size stored in the last step changes no pointer. */
  lemma ResizeLastShape(path: seq<Crumb>, s: int)
    requires |path| > 0
    ensures Before(Rest(path) + [Last(path).(size := s)]) == Before(path)
    ensures After(Rest(path) + [Last(path).(size := s)]) == After(path)
  {
    hide InOrder;
    assert Rest(Rest(path) + [Last(path).(size := s)]) == Rest(path);
  }

  /** Changing a size in front of the last step. */
  lemma ResizeInner(path: seq<Crumb>, rest2: seq<Crumb>)
    requires |path| > 0 && Before(rest2) == Before(Rest(path)) && After(rest2) == After(Rest(path))
    ensures Before(rest2 + [Last(path)]) == Before(path) && After(rest2 + [Last(path)]) == After(path)
  {
    hide InOrder, CrumbBefore, CrumbAfter;
    assert Rest(rest2 + [Last(path)]) == rest2;
  }

  /** Changing sizes changes no pointer. */
  lemma {:induction false} ResizeShape(path: seq<Crumb>, i: nat, s: int)
    requires i < |path|
    ensures Before(path[i := path[i].(size := s)]) == Before(path)
    ensures After(path[i := path[i].(size := s)]) == After(path)
    decreases |path|
  {
    hide Before, After, InOrder, CrumbBefore, CrumbAfter;
    var path2 := path[i := path[i].(size := s)];
    if i == |path| - 1 {
      ResizeLastShape(path, s);
      assert path2 == Rest(path) + [Last(path).(size := s)];
    } else {
      ResizeShape(Rest(path), i, s);
      var rest2 := Rest(path)[i := Rest(path)[i].(size := s)];
      ResizeInner(path, rest2);
      assert path2 == rest2 + [Last(path)];
    }
  }
}
