/** Rotations in memory: which cells a rotation leaves behind, and that they
    hold the rotated tree. */
module AvlRotate {
  import opened Sequences
  import opened AvlShape
  import opened AvlMemory

  function HeightOf(mem: Memory, p: Ptr): int
    requires p == 0 || p in mem
  {
    if p == 0 then -1 else mem[p].height
  }

  function SizeOf(mem: Memory, p: Ptr): int
    requires p == 0 || p in mem
  {
    if p == 0 then 0 else mem[p].size
  }

  lemma RootFields(mem: Memory, p: Ptr, t: Tree)
    requires Rep(mem, p, t)
    ensures p == 0 || p in mem
    ensures (p == 0) == t.Leaf?
    ensures HeightOf(mem, p) == H(t) && SizeOf(mem, p) == Size(t)
    ensures t.Node? ==> p == t.ptr && p in InOrder(t)
  {
  }

  lemma ChildReps(mem: Memory, t: Tree)
    requires t.Node? && Rep(mem, t.ptr, t)
    ensures t.ptr in mem && t.ptr != 0
    ensures Rep(mem, mem[t.ptr].left, t.left) && Rep(mem, mem[t.ptr].right, t.right)
    ensures t.left.Node? ==> mem[t.ptr].left == t.left.ptr
    ensures t.right.Node? ==> mem[t.ptr].right == t.right.ptr
  {
  }

  /** What can be read off a node and its children in memory. */
  lemma NodeFacts(mem: Memory, t: Tree)
    requires t.Node? && Rep(mem, t.ptr, t) && NoDup(InOrder(t))
    ensures t.ptr in mem && t.ptr != 0 && t.ptr in InOrder(t)
    ensures Rep(mem, mem[t.ptr].left, t.left) && Rep(mem, mem[t.ptr].right, t.right)
    ensures NoDup(InOrder(t.left)) && NoDup(InOrder(t.right))
    ensures t.left.Node? ==> mem[t.ptr].left == t.left.ptr && t.left.ptr in InOrder(t.left)
    ensures t.right.Node? ==> mem[t.ptr].right == t.right.ptr && t.right.ptr in InOrder(t.right)
    ensures mem[t.ptr].left == 0 <==> t.left.Leaf?
    ensures mem[t.ptr].right == 0 <==> t.right.Leaf?
    ensures mem[t.ptr].left == 0 || mem[t.ptr].left in mem
    ensures mem[t.ptr].right == 0 || mem[t.ptr].right in mem
    ensures HeightOf(mem, mem[t.ptr].left) == H(t.left) && SizeOf(mem, mem[t.ptr].left) == Size(t.left)
    ensures HeightOf(mem, mem[t.ptr].right) == H(t.right) && SizeOf(mem, mem[t.ptr].right) == Size(t.right)
    ensures t.ptr !in InOrder(t.left) && t.ptr !in InOrder(t.right)
    ensures forall x :: x in InOrder(t.left) ==> x !in InOrder(t.right)
    ensures forall x :: x in InOrder(t.left) || x in InOrder(t.right) ==> x in InOrder(t)
  {
    ChildReps(mem, t);
    RootFields(mem, mem[t.ptr].left, t.left);
    RootFields(mem, mem[t.ptr].right, t.right);
    NodeParts(t);
    InNode(t);
  }

  /** A new node over two subtrees that lie in memory apart from it. */
  lemma NodeRep(mem: Memory, mem2: Memory, cell: Cell, l: Tree, p: Ptr, r: Tree)
    requires Rep(mem, cell.left, l) && Rep(mem, cell.right, r)
    requires SameOn(mem, mem2, InOrder(l)) && SameOn(mem, mem2, InOrder(r))
    requires p != 0 && p in mem2 && mem2[p] == cell
    requires cell.size == 1 + Size(l) + Size(r)
    ensures Rep(mem2, p, Sized(l, p, cell.height, r))
  {
    RepFrame(mem, mem2, cell.left, l);
    RepFrame(mem, mem2, cell.right, r);
  }

  /** Single rotation to the left. */
  lemma SingleLeft(mem: Memory, mem2: Memory, t: Tree)
    requires t.Node? && t.right.Node? && Rep(mem, t.ptr, t) && NoDup(InOrder(t))
    requires t.right.ptr in mem
    requires H(t.right) > H(t.left) && H(t.right.right) > H(t.right.left)
    requires var c := t.right;
             var low := Cell(mem[t.ptr].left, mem[c.ptr].left, H(t.left) + 1, 1 + Size(t.left) + Size(c.left));
             mem2 == mem[t.ptr := low][c.ptr := Cell(t.ptr, mem[c.ptr].right, H(c.right) + 1, 1 + low.size + Size(c.right))]
    ensures Rep(mem2, t.right.ptr, Rotated(t))
  {
    hide InOrder, NoDup, Rep;
    ChildReps(mem, t);
    ChildReps(mem, t.right);
    var c := t.right;
    NodeParts(t);
    NodeParts(c);
    TreeInMemory(mem, t.ptr, t);
    InNode(t);
    InNode(c);
    var low := Sized(t.left, t.ptr, H(t.left) + 1, c.left);
    NodeRep(mem, mem2, mem2[t.ptr], t.left, t.ptr, c.left);
    NodeRepOver(mem, mem2, t.ptr, low, mem[c.ptr].right, c.right, c.ptr, H(c.right) + 1);
  }

  lemma InNode(t: Tree)
    requires t.Node?
    ensures t.ptr in InOrder(t)
    ensures forall x :: x in InOrder(t.left) || x in InOrder(t.right) ==> x in InOrder(t)
  {
  }

  /** A node over a left subtree already standing in the new memory. */
  lemma NodeRepOver(mem: Memory, mem2: Memory, lp: Ptr, l: Tree, rp: Ptr, r: Tree, p: Ptr, h: int)
    requires Rep(mem2, lp, l) && Rep(mem, rp, r) && SameOn(mem, mem2, InOrder(r))
    requires p != 0 && p in mem2 && mem2[p] == Cell(lp, rp, h, 1 + Size(l) + Size(r))
    ensures Rep(mem2, p, Sized(l, p, h, r))
  {
    RepFrame(mem, mem2, rp, r);
  }

  lemma NodeRepUnder(mem: Memory, mem2: Memory, lp: Ptr, l: Tree, rp: Ptr, r: Tree, p: Ptr, h: int)
    requires Rep(mem2, rp, r) && Rep(mem, lp, l) && SameOn(mem, mem2, InOrder(l))
    requires p != 0 && p in mem2 && mem2[p] == Cell(lp, rp, h, 1 + Size(l) + Size(r))
    ensures Rep(mem2, p, Sized(l, p, h, r))
  {
    RepFrame(mem, mem2, lp, l);
  }

  lemma NodeOver(mem2: Memory, l: Tree, p: Ptr, h: int, r: Tree)
    requires l.Node? && r.Node? && Rep(mem2, l.ptr, l) && Rep(mem2, r.ptr, r)
    requires p != 0 && p in mem2 && mem2[p] == Cell(l.ptr, r.ptr, h, 1 + Size(l) + Size(r))
    ensures Rep(mem2, p, Sized(l, p, h, r))
  {
  }

  /** Single rotation to the right. */
  lemma SingleRight(mem: Memory, mem2: Memory, t: Tree)
    requires t.Node? && t.left.Node? && Rep(mem, t.ptr, t) && NoDup(InOrder(t))
    requires t.left.ptr in mem
    requires H(t.right) <= H(t.left) && H(t.left.left) > H(t.left.right)
    requires var c := t.left;
             var low := Cell(mem[c.ptr].right, mem[t.ptr].right, H(t.right) + 1, 1 + Size(c.right) + Size(t.right));
             mem2 == mem[t.ptr := low][c.ptr := Cell(mem[c.ptr].left, t.ptr, H(c.left) + 1, 1 + Size(c.left) + low.size)]
    ensures Rep(mem2, t.left.ptr, Rotated(t))
  {
    hide InOrder, NoDup, Rep;
    ChildReps(mem, t);
    ChildReps(mem, t.left);
    var c := t.left;
    NodeParts(t);
    NodeParts(c);
    TreeInMemory(mem, t.ptr, t);
    InNode(t);
    InNode(c);
    var low := Sized(c.right, t.ptr, H(t.right) + 1, t.right);
    NodeRep(mem, mem2, mem2[t.ptr], c.right, t.ptr, t.right);
    NodeRepUnder(mem, mem2, mem[c.ptr].left, c.left, t.ptr, low, c.ptr, H(c.left) + 1);
  }

  /** Double rotation of a node heavy on the right. */
  lemma DoubleLeft(mem: Memory, mem2: Memory, t: Tree)
    requires t.Node? && t.right.Node? && t.right.left.Node? && Rep(mem, t.ptr, t) && NoDup(InOrder(t))
    requires t.right.ptr in mem && t.right.left.ptr in mem
    requires H(t.right) > H(t.left) && H(t.right.right) <= H(t.right.left)
    requires var c, g := t.right, t.right.left;
             var low := Cell(mem[t.ptr].left, mem[g.ptr].left, H(t.left) + 1, 1 + Size(t.left) + Size(g.left));
             var high := Cell(mem[g.ptr].right, mem[c.ptr].right, H(c.right) + 1, 1 + Size(g.right) + Size(c.right));
             mem2 == mem[t.ptr := low][c.ptr := high][g.ptr := Cell(t.ptr, c.ptr, H(t.left) + 2, 1 + low.size + high.size)]
    ensures Rep(mem2, t.right.left.ptr, Rotated(t))
  {
    hide InOrder, NoDup, Rep;
    var c, g := t.right, t.right.left;
    NodeParts(t);
    NodeParts(c);
    NodeParts(g);
    TreeInMemory(mem, t.ptr, t);
    InNode(t);
    InNode(c);
    InNode(g);
    ChildReps(mem, t);
    ChildReps(mem, c);
    ChildReps(mem, g);
    NodeRep(mem, mem2, mem2[t.ptr], t.left, t.ptr, g.left);
    NodeRep(mem, mem2, mem2[c.ptr], g.right, c.ptr, c.right);
    NodeOver(mem2, Sized(t.left, t.ptr, H(t.left) + 1, g.left), g.ptr, H(t.left) + 2,
             Sized(g.right, c.ptr, H(c.right) + 1, c.right));
  }

  /** Double rotation of a node heavy on the left. */
  lemma DoubleRight(mem: Memory, mem2: Memory, t: Tree)
    requires t.Node? && t.left.Node? && t.left.right.Node? && Rep(mem, t.ptr, t) && NoDup(InOrder(t))
    requires t.left.ptr in mem && t.left.right.ptr in mem
    requires H(t.right) <= H(t.left) && H(t.left.left) <= H(t.left.right)
    requires var c, g := t.left, t.left.right;
             var high := Cell(mem[g.ptr].right, mem[t.ptr].right, H(t.right) + 1, 1 + Size(g.right) + Size(t.right));
             var low := Cell(mem[c.ptr].left, mem[g.ptr].left, H(c.left) + 1, 1 + Size(c.left) + Size(g.left));
             mem2 == mem[t.ptr := high][c.ptr := low][g.ptr := Cell(c.ptr, t.ptr, H(t.right) + 2, 1 + low.size + high.size)]
    ensures Rep(mem2, t.left.right.ptr, Rotated(t))
  {
    hide InOrder, NoDup, Rep;
    var c, g := t.left, t.left.right;
    NodeParts(t);
    NodeParts(c);
    NodeParts(g);
    TreeInMemory(mem, t.ptr, t);
    InNode(t);
    InNode(c);
    InNode(g);
    ChildReps(mem, t);
    ChildReps(mem, c);
    ChildReps(mem, g);
    NodeRep(mem, mem2, mem2[t.ptr], g.right, t.ptr, t.right);
    NodeRep(mem, mem2, mem2[c.ptr], c.left, c.ptr, g.left);
    NodeOver(mem2, Sized(c.left, c.ptr, H(c.left) + 1, g.left), g.ptr, H(t.right) + 2,
             Sized(g.right, t.ptr, H(t.right) + 1, t.right));
  }
}
