/** The AVL tree object: its methods walk and relink cells in memory and are
    proved to produce the trees of AvlShape and AvlExtract. */
module AvlTree {
  import opened Sequences
  import opened AvlShape
  import opened AvlExtract
  import opened AvlMemory
  import opened AvlRotate
  import opened AvlSpine

  /** The array of pointers a search fills, next to the path it stands for. */
  ghost predicate Follows(path: seq<Ptr>, steps: seq<Crumb>) {
    |path| == |steps| && forall i :: 0 <= i < |path| ==> path[i] == steps[i].ptr
  }

  /** Only cells of the listed elements differ. */
  ghost predicate Confined(mem: Memory, mem2: Memory, s: seq<Ptr>) {
    mem.Keys == mem2.Keys && forall q :: q in mem && q !in s ==> mem2[q] == mem[q]
  }

  class TreeObject {
    var root: Ptr
    var mem: Memory
    ghost var tree: Tree
    var key: Ptr -> int

    constructor (cells: Memory, keyOf: Ptr -> int)
      ensures root == 0 && mem == cells && tree == Leaf && key == keyOf && Valid()
    {
      root, mem, tree, key := 0, cells, Leaf, keyOf;
    }

    /** The memory holds the tree, no element occurs twice, sizes are exact and
        heights are weak; nothing is said about balance. */
    ghost predicate Valid()
      reads this
    {
      Rep(mem, root, tree) && NoDup(InOrder(tree)) && SizesExact(tree) && Weak(tree)
    }

    ghost function Elements(): seq<Ptr>
      reads this
    {
      InOrder(tree)
    }

    /** jr_AVL_TreeElementUpdateTreeSize. */
    method UpdateTreeSize(p: Ptr)
      requires p in mem
      requires mem[p].left == 0 || mem[p].left in mem
      requires mem[p].right == 0 || mem[p].right in mem
      modifies `mem
      ensures mem == old(mem)[p := old(mem[p].(size := 1 + SizeOf(mem, mem[p].left) + SizeOf(mem, mem[p].right)))]
    {
      var size := 1;
      if mem[p].left != 0 {
        size := size + mem[mem[p].left].size;
      }
      if mem[p].right != 0 {
        size := size + mem[mem[p].right].size;
      }
      mem := mem[p := mem[p].(size := size)];
    }

    /** Makes the parent of curr, or the root, point to another element. */
    method LinkParent(curr: Ptr, parent: Ptr, next: Ptr, ghost path: seq<Crumb>)
      requires RepPath(mem, root, path, curr) && NoDup(Around(path))
      requires curr != 0 && curr !in Around(path)
      requires parent == if |path| == 0 then 0 else Last(path).ptr
      modifies `mem, `root
      ensures |path| > 0 ==> Last(path).ptr in old(mem)
      ensures mem == Linked(old(mem), path, next)
      ensures RepPath(mem, root, path, next)
    {
      Redirect(mem, root, path, curr, next);
      if |path| > 0 {
        AroundRest(path);
        var c := Last(path);
        RootFields(mem, if c.WentLeft? then mem[c.ptr].right else mem[c.ptr].left, Sibling(c));
      }
      if parent != 0 {
        if mem[parent].right == curr {
          mem := mem[parent := mem[parent].(right := next)];
        } else {
          mem := mem[parent := mem[parent].(left := next)];
        }
      } else {
        root := next;
      }
    }

    /** What a rotation of node t, standing at the end of path, may rely on. */
    static ghost predicate Rotating(mem: Memory, root: Ptr, path: seq<Crumb>, curr: Ptr, parent: Ptr, t: Tree) {
      && t.Node? && curr == t.ptr && RepPath(mem, root, path, curr) && Rep(mem, curr, t)
      && CanRotate(t) && NoDup(InOrder(Plug(path, t)))
      && parent == if |path| == 0 then 0 else Last(path).ptr
    }

    static lemma RotationSetup(mem: Memory, root: Ptr, path: seq<Crumb>, t: Tree)
      requires t.Node? && RepPath(mem, root, path, t.ptr) && Rep(mem, t.ptr, t)
      requires NoDup(InOrder(Plug(path, t)))
      ensures NoDup(InOrder(t)) && NoDup(Around(path))
      ensures t.ptr != 0 && t.ptr in InOrder(t) && t.ptr !in Around(path)
      ensures |path| > 0 ==> Last(path).ptr in mem
    {
      PathParts(path, t);
      PathInMemory(mem, root, path, t.ptr);
      InNode(t);
      if |path| > 0 {
        AroundRest(path);
      }
    }

    /** Relinking the parent does not disturb the subtree below it. */
    static lemma AfterLinking(mem: Memory, path: seq<Crumb>, p: Ptr, t: Tree, next: Ptr)
      requires Rep(mem, p, t) && (|path| > 0 ==> Last(path).ptr in mem)
      requires forall x :: x in InOrder(t) ==> x !in Around(path)
      ensures Rep(Linked(mem, path, next), p, t)
      ensures Confined(mem, Linked(mem, path, next), Around(path))
    {
      if |path| > 0 {
        AroundRest(path);
      }
      TreeInMemory(mem, p, t);
      RepFrame(mem, Linked(mem, path, next), p, t);
    }

    /** Changes inside the subtree do not disturb the path above it. */
    static lemma PathUndisturbed(mem: Memory, mem2: Memory, root: Ptr, path: seq<Crumb>, p: Ptr, t: Tree, cells: seq<Ptr>)
      requires RepPath(mem, root, path, p) && Confined(mem, mem2, cells)
      requires forall x :: x in cells ==> x in InOrder(t)
      requires forall x :: x in InOrder(t) ==> x !in Around(path)
      ensures RepPath(mem2, root, path, p)
    {
      PathInMemory(mem, root, path, p);
      RepPathFrame(mem, mem2, root, path, p);
    }

    /** A child pointer that leads to none of three given elements. */
    static predicate Apart(mem: Memory, p: Ptr, a: Ptr, b: Ptr, c: Ptr) {
      p == 0 || (p in mem && p != a && p != b && p != c)
    }

    /** The assignments of a single rotation of a node heavy on the right. */
    method RelinkSingleLeft(curr: Ptr, right: Ptr, leftGrand: Ptr, leftHeight: int, rightGrandHeight: int)
      requires {curr, right} <= mem.Keys && 0 !in {curr, right} && curr != right
      requires Apart(mem, mem[curr].left, curr, right, right) && Apart(mem, mem[right].right, curr, right, right)
      requires Apart(mem, leftGrand, curr, right, right)
      modifies `mem
      ensures var m := old(mem);
              var low := Cell(m[curr].left, leftGrand, leftHeight + 1, 1 + SizeOf(m, m[curr].left) + SizeOf(m, leftGrand));
              mem == m[curr := low][right := Cell(curr, m[right].right, rightGrandHeight + 1, 1 + low.size + SizeOf(m, m[right].right))]
    {
      mem := mem[right := mem[right].(left := curr)];
      mem := mem[curr := mem[curr].(right := leftGrand, height := leftHeight + 1)];
      mem := mem[right := mem[right].(height := rightGrandHeight + 1)];
      UpdateTreeSize(curr);
      UpdateTreeSize(right);
    }

    /** The assignments of a single rotation of a node heavy on the left. */
    method RelinkSingleRight(curr: Ptr, left: Ptr, rightGrand: Ptr, rightHeight: int, leftGrandHeight: int)
      requires {curr, left} <= mem.Keys && 0 !in {curr, left} && curr != left
      requires Apart(mem, mem[curr].right, curr, left, left) && Apart(mem, mem[left].left, curr, left, left)
      requires Apart(mem, rightGrand, curr, left, left)
      modifies `mem
      ensures var m := old(mem);
              var low := Cell(rightGrand, m[curr].right, rightHeight + 1, 1 + SizeOf(m, rightGrand) + SizeOf(m, m[curr].right));
              mem == m[curr := low][left := Cell(m[left].left, curr, leftGrandHeight + 1, 1 + SizeOf(m, m[left].left) + low.size)]
    {
      mem := mem[left := mem[left].(right := curr)];
      mem := mem[curr := mem[curr].(left := rightGrand, height := rightHeight + 1)];
      mem := mem[left := mem[left].(height := leftGrandHeight + 1)];
      UpdateTreeSize(curr);
      UpdateTreeSize(left);
    }

    /** The first assignment of every rotation: the parent gets its new child,
        and the subtree of the old one stays readable. */
    method LinkTop(curr: Ptr, parent: Ptr, next: Ptr, ghost path: seq<Crumb>, ghost t: Tree)
      requires Rotating(mem, root, path, curr, parent, t)
      modifies `mem, `root
      ensures Confined(old(mem), mem, Around(path)) && RepPath(mem, root, path, next) && Rep(mem, curr, t)
      ensures NoDup(InOrder(t)) && forall x :: x in InOrder(t) ==> x !in Around(path)
      ensures forall x :: x in InOrder(t) ==> x in old(mem) && mem[x] == old(mem)[x]
    {
      hide InOrder, NoDup, Around, Plug, Linked, RepPath, Rep, CanRotate;
      RotationSetup(mem, root, path, t);
      PathParts(path, t);
      AfterLinking(mem, path, curr, t, next);
      TreeInMemory(mem, curr, t);
      LinkParent(curr, parent, next, path);
    }

    /** What the assignments of a double rotation of a node heavy on the right
        have made. */
    static lemma DoubleLeftDone(linked: Memory, mem2: Memory, root: Ptr, path: seq<Crumb>, t: Tree)
      requires t.Node? && CanRotate(t) && H(t.right) > H(t.left) && H(t.right.right) <= H(t.right.left)
      requires Rep(linked, t.ptr, t) && NoDup(InOrder(t)) && forall x :: x in InOrder(t) ==> x !in Around(path)
      requires RepPath(linked, root, path, t.right.left.ptr)
      requires t.ptr in linked && t.right.ptr in linked && t.right.left.ptr in linked
      requires var curr, right, grand := t.ptr, t.right.ptr, t.right.left.ptr;
               var m := linked;
               var low := Cell(m[curr].left, m[grand].left, H(t.left) + 1, 1 + Size(t.left) + Size(t.right.left.left));
               var high := Cell(m[grand].right, m[right].right, H(t.right.right) + 1, 1 + Size(t.right.left.right) + Size(t.right.right));
               Confined(m, mem2, [curr, right, grand]) && mem2[curr] == low && mem2[right] == high
               && mem2[grand] == Cell(curr, right, H(t.left) + 2, 1 + low.size + high.size)
      ensures RepPath(mem2, root, path, t.right.left.ptr) && Rep(mem2, t.right.left.ptr, Rotated(t))
      ensures Confined(linked, mem2, InOrder(t))
    {
      hide InOrder, NoDup, Around, RepPath, Rep, Rotated;
      var c := t.right;
      var grand := c.left.ptr;
      NodeFacts(linked, t);
      NodeFacts(linked, c);
      NodeFacts(linked, c.left);
      InNode(t);
      InNode(c);
      assert mem2 == linked[t.ptr := mem2[t.ptr]][c.ptr := mem2[c.ptr]][grand := mem2[grand]];
      DoubleLeft(linked, mem2, t);
      PathUndisturbed(linked, mem2, root, path, grand, t, [t.ptr, c.ptr, grand]);
    }

    static lemma DoubleRightDone(linked: Memory, mem2: Memory, root: Ptr, path: seq<Crumb>, t: Tree)
      requires t.Node? && CanRotate(t) && H(t.right) <= H(t.left) && H(t.left.left) <= H(t.left.right)
      requires Rep(linked, t.ptr, t) && NoDup(InOrder(t)) && forall x :: x in InOrder(t) ==> x !in Around(path)
      requires RepPath(linked, root, path, t.left.right.ptr)
      requires t.ptr in linked && t.left.ptr in linked && t.left.right.ptr in linked
      requires var curr, left, grand := t.ptr, t.left.ptr, t.left.right.ptr;
               var m := linked;
               var high := Cell(m[grand].right, m[curr].right, H(t.right) + 1, 1 + Size(t.left.right.right) + Size(t.right));
               var low := Cell(m[left].left, m[grand].left, H(t.left.left) + 1, 1 + Size(t.left.left) + Size(t.left.right.left));
               Confined(m, mem2, [curr, left, grand]) && mem2[curr] == high && mem2[left] == low
               && mem2[grand] == Cell(left, curr, H(t.right) + 2, 1 + low.size + high.size)
      ensures RepPath(mem2, root, path, t.left.right.ptr) && Rep(mem2, t.left.right.ptr, Rotated(t))
      ensures Confined(linked, mem2, InOrder(t))
    {
      hide InOrder, NoDup, Around, RepPath, Rep, Rotated;
      var c := t.left;
      var grand := c.right.ptr;
      NodeFacts(linked, t);
      NodeFacts(linked, c);
      NodeFacts(linked, c.right);
      InNode(t);
      InNode(c);
      assert mem2 == linked[t.ptr := mem2[t.ptr]][c.ptr := mem2[c.ptr]][grand := mem2[grand]];
      DoubleRight(linked, mem2, t);
      PathUndisturbed(linked, mem2, root, path, grand, t, [t.ptr, c.ptr, grand]);
    }

    method RotateSingleLeft(curr: Ptr, parent: Ptr, ghost path: seq<Crumb>, ghost t: Tree) returns (ghost top: Ptr)
      requires Rotating(mem, root, path, curr, parent, t)
      requires H(t.right) > H(t.left) && H(t.right.right) > H(t.right.left)
      modifies `mem, `root
      ensures Confined(old(mem), mem, InOrder(t) + Around(path))
      ensures RepPath(mem, root, path, top) && Rep(mem, top, Rotated(t))
    {
      hide InOrder, NoDup, Around, Plug, Linked, RepPath, Rep, Rotated;
      RotationSetup(mem, root, path, t);
      PathParts(path, t);
      ghost var c := t.right;
      NodeFacts(mem, t);
      NodeFacts(mem, c);
      var right := mem[curr].right;
      var leftHeight := HeightOf(mem, mem[curr].left);
      var rightGrand, leftGrand := mem[right].right, mem[right].left;
      var rightGrandHeight := HeightOf(mem, rightGrand);
      AfterLinking(mem, path, curr, t, right);
      LinkParent(curr, parent, right, path);
      ghost var linked := mem;
      NodeFacts(mem, t);
      NodeFacts(mem, c);
      RelinkSingleLeft(curr, right, leftGrand, leftHeight, rightGrandHeight);
      ghost var low := Cell(linked[curr].left, leftGrand, H(t.left) + 1, 1 + Size(t.left) + Size(c.left));
      ghost var high := Cell(curr, rightGrand, H(c.right) + 1, 1 + low.size + Size(c.right));
      assert mem == linked[curr := low][right := high];
      SingleLeft(linked, mem, t);
      PathUndisturbed(linked, mem, root, path, right, t, [curr, right]);
      top := right;
    }

    /** The assignments of a double rotation of a node heavy on the right. */
    method RelinkDoubleLeft(curr: Ptr, right: Ptr, grand: Ptr, leftHeight: int, rightGrandHeight: int)
      requires {curr, right, grand} <= mem.Keys && 0 !in {curr, right, grand}
      requires curr != right && curr != grand && right != grand
      requires Apart(mem, mem[curr].left, curr, right, grand) && Apart(mem, mem[right].right, curr, right, grand)
      requires Apart(mem, mem[grand].left, curr, right, grand) && Apart(mem, mem[grand].right, curr, right, grand)
      modifies `mem
      ensures var m := old(mem);
              var low := Cell(m[curr].left, m[grand].left, leftHeight + 1, 1 + SizeOf(m, m[curr].left) + SizeOf(m, m[grand].left));
              var high := Cell(m[grand].right, m[right].right, rightGrandHeight + 1, 1 + SizeOf(m, m[grand].right) + SizeOf(m, m[right].right));
              Confined(m, mem, [curr, right, grand])
              && mem[curr] == low && mem[right] == high
              && mem[grand] == Cell(curr, right, leftHeight + 2, 1 + low.size + high.size)
    {
      mem := mem[curr := mem[curr].(right := mem[grand].left, height := leftHeight + 1)];
      mem := mem[right := mem[right].(left := mem[grand].right, height := rightGrandHeight + 1)];
      mem := mem[grand := mem[grand].(left := curr, right := right, height := mem[curr].height + 1)];
      UpdateTreeSize(curr);
      UpdateTreeSize(right);
      UpdateTreeSize(grand);
    }

    method RotateDoubleLeft(curr: Ptr, parent: Ptr, ghost path: seq<Crumb>, ghost t: Tree) returns (ghost top: Ptr)
      requires Rotating(mem, root, path, curr, parent, t)
      requires H(t.right) > H(t.left) && H(t.right.right) <= H(t.right.left)
      modifies `mem, `root
      ensures Confined(old(mem), mem, InOrder(t) + Around(path))
      ensures RepPath(mem, root, path, top) && Rep(mem, top, Rotated(t))
    {
      hide InOrder, NoDup, Around, Plug, RepPath, Rep, Rotated;
      RotationSetup(mem, root, path, t);
      ghost var c := t.right;
      NodeFacts(mem, t);
      NodeFacts(mem, c);
      NodeFacts(mem, c.left);
      var right := mem[curr].right;
      var leftHeight := HeightOf(mem, mem[curr].left);
      var rightGrand, leftGrand := mem[right].right, mem[right].left;
      var rightGrandHeight := HeightOf(mem, rightGrand);
      InNode(t);
      InNode(c);
      LinkTop(curr, parent, leftGrand, path, t);
      ghost var linked := mem;
      NodeFacts(mem, t);
      NodeFacts(mem, c);
      NodeFacts(mem, c.left);
      RelinkDoubleLeft(curr, right, leftGrand, leftHeight, rightGrandHeight);
      DoubleLeftDone(linked, mem, root, path, t);
      top := leftGrand;
    }

    method RotateSingleRight(curr: Ptr, parent: Ptr, ghost path: seq<Crumb>, ghost t: Tree) returns (ghost top: Ptr)
      requires Rotating(mem, root, path, curr, parent, t)
      requires H(t.right) <= H(t.left) && H(t.left.left) > H(t.left.right)
      modifies `mem, `root
      ensures Confined(old(mem), mem, InOrder(t) + Around(path))
      ensures RepPath(mem, root, path, top) && Rep(mem, top, Rotated(t))
    {
      hide InOrder, NoDup, Around, Plug, Linked, RepPath, Rep, Rotated;
      RotationSetup(mem, root, path, t);
      PathParts(path, t);
      ghost var c := t.left;
      NodeFacts(mem, t);
      NodeFacts(mem, c);
      var left := mem[curr].left;
      var rightHeight := HeightOf(mem, mem[curr].right);
      var rightGrand, leftGrand := mem[left].right, mem[left].left;
      var leftGrandHeight := HeightOf(mem, leftGrand);
      AfterLinking(mem, path, curr, t, left);
      LinkParent(curr, parent, left, path);
      ghost var linked := mem;
      NodeFacts(mem, t);
      NodeFacts(mem, c);
      RelinkSingleRight(curr, left, rightGrand, rightHeight, leftGrandHeight);
      ghost var low := Cell(rightGrand, linked[curr].right, H(t.right) + 1, 1 + Size(c.right) + Size(t.right));
      ghost var high := Cell(leftGrand, curr, H(c.left) + 1, 1 + Size(c.left) + low.size);
      assert mem == linked[curr := low][left := high];
      SingleRight(linked, mem, t);
      PathUndisturbed(linked, mem, root, path, left, t, [curr, left]);
      top := left;
    }

    /** The assignments of a double rotation of a node heavy on the left. */
    method RelinkDoubleRight(curr: Ptr, left: Ptr, grand: Ptr, rightHeight: int, leftGrandHeight: int)
      requires {curr, left, grand} <= mem.Keys && 0 !in {curr, left, grand}
      requires curr != left && curr != grand && left != grand
      requires Apart(mem, mem[curr].right, curr, left, grand) && Apart(mem, mem[left].left, curr, left, grand)
      requires Apart(mem, mem[grand].left, curr, left, grand) && Apart(mem, mem[grand].right, curr, left, grand)
      modifies `mem
      ensures var m := old(mem);
              var high := Cell(m[grand].right, m[curr].right, rightHeight + 1, 1 + SizeOf(m, m[grand].right) + SizeOf(m, m[curr].right));
              var low := Cell(m[left].left, m[grand].left, leftGrandHeight + 1, 1 + SizeOf(m, m[left].left) + SizeOf(m, m[grand].left));
              Confined(m, mem, [curr, left, grand])
              && mem[curr] == high && mem[left] == low
              && mem[grand] == Cell(left, curr, rightHeight + 2, 1 + low.size + high.size)
    {
      mem := mem[curr := mem[curr].(left := mem[grand].right, height := rightHeight + 1)];
      mem := mem[left := mem[left].(right := mem[grand].left, height := leftGrandHeight + 1)];
      mem := mem[grand := mem[grand].(left := left, right := curr, height := mem[curr].height + 1)];
      UpdateTreeSize(curr);
      UpdateTreeSize(left);
      UpdateTreeSize(grand);
    }

    method RotateDoubleRight(curr: Ptr, parent: Ptr, ghost path: seq<Crumb>, ghost t: Tree) returns (ghost top: Ptr)
      requires Rotating(mem, root, path, curr, parent, t)
      requires H(t.right) <= H(t.left) && H(t.left.left) <= H(t.left.right)
      modifies `mem, `root
      ensures Confined(old(mem), mem, InOrder(t) + Around(path))
      ensures RepPath(mem, root, path, top) && Rep(mem, top, Rotated(t))
    {
      hide InOrder, NoDup, Around, Plug, RepPath, Rep, Rotated;
      RotationSetup(mem, root, path, t);
      ghost var c := t.left;
      NodeFacts(mem, t);
      NodeFacts(mem, c);
      NodeFacts(mem, c.right);
      var left := mem[curr].left;
      var rightHeight := HeightOf(mem, mem[curr].right);
      var rightGrand, leftGrand := mem[left].right, mem[left].left;
      var leftGrandHeight := HeightOf(mem, leftGrand);
      InNode(t);
      InNode(c);
      LinkTop(curr, parent, rightGrand, path, t);
      ghost var linked := mem;
      NodeFacts(mem, t);
      NodeFacts(mem, c);
      NodeFacts(mem, c.right);
      RelinkDoubleRight(curr, left, rightGrand, rightHeight, leftGrandHeight);
      DoubleRightDone(linked, mem, root, path, t);
      top := rightGrand;
    }

    /** jr_AVL_TreeBalanceElement. */
    method BalanceElement(curr: Ptr, parent: Ptr, ghost path: seq<Crumb>, ghost t: Tree) returns (ghost top: Ptr)
      requires Rotating(mem, root, path, curr, parent, t)
      modifies `mem, `root
      ensures Confined(old(mem), mem, InOrder(t) + Around(path))
      ensures RepPath(mem, root, path, top) && Rep(mem, top, Rotated(t))
    {
      hide InOrder, Around, Plug, RepPath, Rep, Rotated;
      RotationSetup(mem, root, path, t);
      NodeFacts(mem, t);
      var right, left := mem[curr].right, mem[curr].left;
      if HeightOf(mem, right) > HeightOf(mem, left) {
        NodeFacts(mem, t.right);
        if HeightOf(mem, mem[right].right) > HeightOf(mem, mem[right].left) {
          top := RotateSingleLeft(curr, parent, path, t);
        } else {
          top := RotateDoubleLeft(curr, parent, path, t);
        }
      } else {
        NodeFacts(mem, t.left);
        if HeightOf(mem, mem[left].left) > HeightOf(mem, mem[left].right) {
          top := RotateSingleRight(curr, parent, path, t);
        } else {
          top := RotateDoubleRight(curr, parent, path, t);
        }
      }
    }

    /** The state of the climb: the subtree sub hangs at p below the steps that
        have not been looked at. */
    ghost predicate Climbing(steps: seq<Crumb>, p: Ptr, sub: Tree, elements: seq<Ptr>)
      reads this
    {
      && RepPath(mem, root, steps, p) && Rep(mem, p, sub)
      && NoDup(elements) && InOrder(Plug(steps, sub)) == elements
      && WeakPath(steps) && Weak(sub)
    }

    /** What the climb does at one element. */
    method BalanceAt(curr: Ptr, parent: Ptr, ghost rest: seq<Crumb>, ghost node: Tree, ghost elements: seq<Ptr>)
      returns (done: bool, ghost p: Ptr, ghost t: Tree)
      requires node.Node? && curr == node.ptr && RepPath(mem, root, rest, curr) && Rep(mem, curr, node)
      requires parent == if |rest| == 0 then 0 else Last(rest).ptr
      requires NoDup(elements) && InOrder(Plug(rest, node)) == elements
      requires WeakPath(rest) && Weak(node.left) && Weak(node.right) && node.height >= 0
      modifies `mem, `root
      ensures Confined(old(mem), mem, elements)
      ensures RepPath(mem, root, rest, p) && Rep(mem, p, t)
      ensures done <==> Difference(node) == 2 || node.height == HigherChild(node) + 1
      ensures done ==> (Difference(node) == 2 ==> CanRotate(node) && t == Rotated(node)) && (Difference(node) != 2 ==> t == node)
      ensures !done ==> p == curr && t == node.(height := HigherChild(node) + 1)
      ensures !done ==> Climbing(rest, p, t, elements)
    {
      hide InOrder, Around, RepPath, Rep, Rotated, WeakPath, Weak, NoDup, CanRotate;
      PathParts(rest, node);
      AroundIn(rest, node);
      NodeFacts(mem, node);
      var rightHeight, leftHeight := HeightOf(mem, mem[curr].right), HeightOf(mem, mem[curr].left);
      var maxChildHeight, diff;
      if rightHeight < leftHeight {
        maxChildHeight, diff := leftHeight, leftHeight - rightHeight;
      } else {
        maxChildHeight, diff := rightHeight, rightHeight - leftHeight;
      }
      assert maxChildHeight == HigherChild(node) && diff == Difference(node);
      hide HeightOf, HigherChild, Difference;
      NodeHeight(mem, node);
      if diff == 2 {
        WeakRotates(node);
        p := BalanceElement(curr, parent, rest, node);
        t := Rotated(node);
        done := true;
      } else if mem[curr].height == maxChildHeight + 1 {
        p, t := curr, node;
        done := true;
      } else {
        ghost var before := mem;
        mem := mem[curr := mem[curr].(height := maxChildHeight + 1)];
        HeightChanged(before, mem, root, rest, node, maxChildHeight + 1, elements);
        p, t := curr, node.(height := maxChildHeight + 1);
        done := false;
      }
    }

    static lemma AroundIn(rest: seq<Crumb>, node: Tree)
      ensures forall x :: x in InOrder(node) || x in Around(rest) ==> x in InOrder(Plug(rest, node))
    {
      PlugInOrder(rest, node);
    }

    static lemma NodeHeight(mem: Memory, node: Tree)
      requires node.Node? && Rep(mem, node.ptr, node)
      ensures node.ptr in mem && mem[node.ptr].height == node.height
    {
    }

    /** jr_AVL_TreeBalancePath: from the end of the path back towards the root,
        until a rotation was made or a stored height is already right. */
    method BalancePath(path: seq<Ptr>, ghost steps: seq<Crumb>, ghost p: Ptr, ghost sub: Tree)
      requires Follows(path, steps)
      requires Climbing(steps, p, sub, InOrder(Plug(steps, sub)))
      modifies `root, `mem, `tree
      ensures tree == BalanceUp(steps, sub) && Rep(mem, root, tree)
      ensures Confined(old(mem), mem, InOrder(Plug(steps, sub)))
    {
      hide InOrder, Around, RepPath, Rep, Rotated, NoDup, WeakPath, Weak, CanRotate;
      ghost var elements := InOrder(Plug(steps, sub));
      ghost var at, below := p, sub;
      var i := |path|;
      assert steps[..i] == steps;
      while i > 0
        invariant 0 <= i <= |path|
        invariant Climbing(steps[..i], at, below, elements)
        invariant BalanceUp(steps[..i], below) == BalanceUp(steps, sub)
        invariant Confined(old(mem), mem, elements)
      {
        i := i - 1;
        ghost var todo, rest := steps[..i + 1], steps[..i];
        ghost var node := Fill(Last(todo), below);
        ClimbStep(mem, root, todo, at, below, elements);
        assert Rest(todo) == rest && path[i] == node.ptr;
        assert i > 0 ==> Last(rest) == steps[i - 1];
        var done;
        done, at, below := BalanceAt(path[i], if i == 0 then 0 else path[i - 1], rest, node, elements);
        if done {
          RepPlug(mem, root, rest, at, below);
          tree := Plug(rest, below);
          return;
        }
      }
      RepPlug(mem, root, [], at, below);
      tree := below;
    }

    /** Taking the last step of a path back into the subtree. */
    static lemma ClimbStep(mem: Memory, root: Ptr, todo: seq<Crumb>, at: Ptr, below: Tree, elements: seq<Ptr>)
      requires |todo| > 0 && RepPath(mem, root, todo, at) && Rep(mem, at, below)
      requires NoDup(elements) && InOrder(Plug(todo, below)) == elements
      requires WeakPath(todo) && Weak(below)
      ensures var node := Fill(Last(todo), below);
              && RepPath(mem, root, Rest(todo), node.ptr) && Rep(mem, node.ptr, node)
              && InOrder(Plug(Rest(todo), node)) == elements && NoDup(InOrder(node))
              && WeakPath(Rest(todo)) && Weak(node.left) && Weak(node.right) && node.height >= 0
              && forall x :: x in InOrder(node) || x in Around(Rest(todo)) ==> x in elements
    {
      var node := Fill(Last(todo), below);
      assert WeakCrumb(todo[|todo| - 1]);
      PathParts(Rest(todo), node);
      PlugInOrder(Rest(todo), node);
    }

    /** Storing another height in the node above. */
    static lemma HeightChanged(mem: Memory, mem2: Memory, root: Ptr, rest: seq<Crumb>, node: Tree, h: int, elements: seq<Ptr>)
      requires node.Node? && RepPath(mem, root, rest, node.ptr) && Rep(mem, node.ptr, node)
      requires NoDup(elements) && InOrder(Plug(rest, node)) == elements
      requires Weak(node.left) && Weak(node.right) && h == HigherChild(node) + 1
      requires node.ptr in mem && mem2 == mem[node.ptr := mem[node.ptr].(height := h)]
      ensures var node2 := node.(height := h);
              && RepPath(mem2, root, rest, node.ptr) && Rep(mem2, node.ptr, node2)
              && InOrder(Plug(rest, node2)) == elements && Weak(node2)
    {
      var node2 := node.(height := h);
      PathParts(rest, node);
      NodeFacts(mem, node);
      TreeInMemory(mem, node.ptr, node);
      RepFrame(mem, mem2, mem[node.ptr].left, node.left);
      RepFrame(mem, mem2, mem[node.ptr].right, node.right);
      PathUndisturbed(mem, mem2, root, rest, node.ptr, node, [node.ptr]);
      PlugInOrder(rest, node);
      PlugInOrder(rest, node2);
    }

    // ----- descending -----

    /** A place in the tree: the path array, the steps it stands for, the
        pointer found there and the subtree it leads to. */
    ghost predicate AtPlace(path: seq<Ptr>, steps: seq<Crumb>, p: Ptr, sub: Tree)
      reads this
    {
      && Follows(path, steps)
      && RepPath(mem, root, steps, p) && Rep(mem, p, sub)
      && Plug(steps, sub) == tree
    }

    /** The search loop shared by find, insert and extract: it stops at an
        element with the key, or at a null pointer. */
    method DescendByKey(k: int) returns (path: seq<Ptr>, curr: Ptr, lastLeft: bool, ghost steps: seq<Crumb>, ghost sub: Tree)
      requires Valid() && Sorted(Elements(), key)
      ensures AtPlace(path, steps, curr, sub)
      ensures AllBelow(Before(steps), key, k) && AllAbove(After(steps), key, k)
      ensures curr != 0 ==> key(curr) == k
      ensures |steps| > 0 ==> lastLeft == Last(steps).WentLeft?
    {
      hide InOrder, RepPath, Rep, Before, After, Plug;
      path, curr, lastLeft, steps, sub := [], root, false, [], tree;
      StartPlace();
      while curr != 0 && key(curr) != k
        invariant AtPlace(path, steps, curr, sub)
        invariant AllBelow(Before(steps), key, k) && AllAbove(After(steps), key, k)
        invariant |steps| > 0 ==> lastLeft == Last(steps).WentLeft?
        decreases sub
      {
        RootFields(mem, curr, sub);
        DescendKeepsBounds(steps, sub, key, k);
        lastLeft := k < key(curr);
        StepDown(mem, root, steps, sub, lastLeft);
        CrumbsOf(sub);
        path := path + [curr];
        if lastLeft {
          steps := steps + [LeftStep(sub)];
          curr, sub := mem[curr].left, sub.left;
        } else {
          steps := steps + [RightStep(sub)];
          curr, sub := mem[curr].right, sub.right;
        }
      }
    }

    lemma StartPlace()
      requires Rep(mem, root, tree)
      ensures AtPlace([], [], root, tree) && Before([]) == [] && After([]) == []
    {
    }

    static lemma CrumbsOf(t: Tree)
      requires t.Node?
      ensures CrumbAfter(LeftStep(t)) == [t.ptr] + InOrder(t.right) && CrumbBefore(LeftStep(t)) == []
      ensures CrumbBefore(RightStep(t)) == InOrder(t.left) + [t.ptr] && CrumbAfter(RightStep(t)) == []
      ensures forall s: seq<Ptr> :: [] + s == s && s + [] == s
    {
    }

    /** Going down one side as far as possible. */
    method DescendSpine(path0: seq<Ptr>, start: Ptr, right: bool, ghost steps0: seq<Crumb>, ghost sub0: Tree)
      returns (path: seq<Ptr>)
      requires AtPlace(path0, steps0, start, sub0)
      ensures AtPlace(path, steps0 + Spine(sub0, right), 0, Leaf)
      ensures |path| == |path0| <==> start == 0
    {
      hide InOrder, Before, After, RepPath, Rep, Plug, Spine;
      path := path0;
      var curr: Ptr := start;
      ghost var steps, sub := steps0, sub0;
      RootFields(mem, curr, sub);
      while curr != 0
        invariant AtPlace(path, steps, curr, sub)
        invariant steps + Spine(sub, right) == steps0 + Spine(sub0, right)
        invariant (curr == 0) == sub.Leaf?
        invariant |path0| <= |path| && (|path| == |path0| ==> curr == start)
        decreases sub
      {
        RootFields(mem, curr, sub);
        StepDown(mem, root, steps, sub, !right);
        path := path + [curr];
        ghost var c := if right then RightStep(sub) else LeftStep(sub);
        SpineSplits(steps, sub, right);
        steps := steps + [c];
        curr, sub := if right then mem[curr].right else mem[curr].left, if right then sub.right else sub.left;
        RootFields(mem, curr, sub);
      }
      NoSpine(steps, right);
    }

    static lemma NoSpine(steps: seq<Crumb>, right: bool)
      ensures steps + Spine(Leaf, right) == steps
    {
    }

    static lemma SpineSplits(steps: seq<Crumb>, t: Tree, right: bool)
      requires t.Node?
      ensures var c := if right then RightStep(t) else LeftStep(t);
              steps + Spine(t, right) == (steps + [c]) + Spine(if right then t.right else t.left, right)
    {
    }

    // ----- stored sizes along a path -----

    method ChangeSizes(path: seq<Ptr>, d: int, ghost steps: seq<Crumb>, ghost p: Ptr, ghost sub: Tree)
      requires Follows(path, steps)
      requires RepPath(mem, root, steps, p) && Rep(mem, p, sub) && NoDup(Around(steps))
      requires forall x :: x in InOrder(sub) ==> x !in Around(steps)
      modifies `mem
      ensures RepPath(mem, root, Bump(steps, d), p) && Rep(mem, p, sub)
      ensures Confined(old(mem), mem, Around(steps))
    {
      hide InOrder, Before, After, RepPath, Rep, NoDup;
      ghost var now := steps;
      for i := 0 to |path|
        invariant |now| == |steps|
        invariant forall j :: 0 <= j < i ==> now[j] == steps[j].(size := steps[j].size + d)
        invariant forall j :: i <= j < |steps| ==> now[j] == steps[j]
        invariant RepPath(mem, root, now, p) && Rep(mem, p, sub)
        invariant Around(now) == Around(steps)
        invariant Confined(old(mem), mem, Around(steps))
      {
        ghost var before := mem;
        ghost var s := steps[i].size + d;
        ResizeOne(mem, root, now, p, i, s);
        ResizeShape(now, i, s);
        StepCell(mem, root, now, p, i);
        mem := mem[path[i] := mem[path[i]].(size := mem[path[i]].size + d)];
        TreeInMemory(before, p, sub);
        RepFrame(before, mem, p, sub);
        now := now[i := now[i].(size := s)];
      }
      BumpAt(steps, d);
      assert now == Bump(steps, d);
    }

    static lemma {:induction false} StepCell(mem: Memory, root: Ptr, path: seq<Crumb>, p: Ptr, i: nat)
      requires RepPath(mem, root, path, p) && i < |path|
      ensures path[i].ptr in mem && mem[path[i].ptr].size == path[i].size
      decreases |path|
    {
      if i < |path| - 1 {
        StepCell(mem, root, Rest(path), Last(path).ptr, i);
      }
    }

    // ----- inserting -----

    /** The new element, as a leaf, linked to the end of the path, in the place of
        the subtree that was there. */
    method LinkNew(path: seq<Ptr>, isLeft: bool, newNode: Ptr, ghost steps: seq<Crumb>, ghost child: Ptr, ghost sub: Tree)
      requires Valid() && AtPlace(path, steps, child, sub)
      requires |steps| > 0 ==> isLeft == Last(steps).WentLeft?
      requires newNode != 0 && newNode in mem && newNode !in Elements()
      modifies `mem, `root
      ensures RepPath(mem, root, steps, newNode) && Rep(mem, newNode, Node(Leaf, newNode, 0, 1, Leaf))
      ensures Confined(old(mem), mem, old(Elements()) + [newNode])
    {
      hide InOrder, Around, RepPath, Rep, NoDup, Weak, SizesExact, Plug;
      PathParts(steps, sub);
      AroundIn(steps, sub);
      Redirect(mem, root, steps, child, newNode);
      PathInMemory(mem, root, steps, child);
      LastAround(steps);
      ghost var linked := Linked(mem, steps, newNode);
      if |path| > 0 {
        var parent := path[|path| - 1];
        if isLeft {
          mem := mem[parent := mem[parent].(left := newNode)];
        } else {
          mem := mem[parent := mem[parent].(right := newNode)];
        }
      } else {
        root := newNode;
      }
      assert mem == linked;
      hide Linked;
      mem := mem[newNode := mem[newNode].(left := 0, right := 0, height := 0, size := 1)];
      RepPathFrame(linked, mem, root, steps, newNode);
      LeafRep(mem, newNode);
    }

    /** jr_AVL_TreeAppendToPath at a place where a subtree may still hang: it is
        not in the tree any more. */
    method AppendOver(path: seq<Ptr>, isLeft: bool, newNode: Ptr, ghost steps: seq<Crumb>, ghost child: Ptr, ghost sub: Tree)
      requires Valid() && AtPlace(path, steps, child, sub)
      requires |steps| > 0 ==> isLeft == Last(steps).WentLeft?
      requires newNode != 0 && newNode in mem && newNode !in Elements()
      modifies `root, `mem, `tree
      ensures tree == Inserted(steps, newNode) && (sub.Leaf? ==> Valid())
      ensures Rep(mem, root, tree) && NoDup(InOrder(tree)) && Weak(tree)
      ensures Confined(old(mem), mem, old(Elements()) + [newNode])
    {
      hide InOrder, Around, RepPath, Rep, NoDup, WeakPath, Weak, SizesExact, BalanceUp, Plug;
      ghost var leaf := Node(Leaf, newNode, 0, 1, Leaf);
      PathParts(steps, sub);
      AroundIn(steps, sub);
      WeakUnplug(steps, sub);
      LinkNew(path, isLeft, newNode, steps, child, sub);
      LeafRep(map[newNode := Cell(0, 0, 0, 1)], newNode);
      ChangeSizes(path, 1, steps, newNode, leaf);
      BumpAt(steps, 1);
      InsertClimb(steps, newNode);
      BalancePath(path, Bump(steps, 1), newNode, leaf);
      AfterInsert(steps, newNode);
    }

    /** jr_AVL_TreeAppendToPath. */
    method AppendToPath(path: seq<Ptr>, isLeft: bool, newNode: Ptr, ghost steps: seq<Crumb>)
      requires Valid() && AtPlace(path, steps, 0, Leaf)
      requires |steps| > 0 ==> isLeft == Last(steps).WentLeft?
      requires newNode != 0 && newNode in mem && newNode !in Elements()
      modifies `root, `mem, `tree
      ensures tree == Inserted(steps, newNode) && Valid()
      ensures Confined(old(mem), mem, old(Elements()) + [newNode])
    {
      AppendOver(path, isLeft, newNode, steps, 0, Leaf);
    }

    static lemma AfterInsert(steps: seq<Crumb>, p: Ptr)
      requires NoDup(Around(steps)) && p !in Around(steps) && WeakPath(steps)
      ensures var t := Inserted(steps, p);
              NoDup(InOrder(t)) && Weak(t) && (SizesExact(Plug(steps, Leaf)) ==> SizesExact(t))
    {
      InsertedElements(steps, p);
      NoDupInserted(Before(steps), p, After(steps));
    }

    static lemma LeafRep(mem: Memory, p: Ptr)
      requires p != 0 && p in mem && mem[p] == Cell(0, 0, 0, 1)
      ensures Rep(mem, p, Node(Leaf, p, 0, 1, Leaf)) && InOrder(Node(Leaf, p, 0, 1, Leaf)) == [p]
    {
      assert Rep(mem, 0, Leaf);
    }

    static lemma LastAround(steps: seq<Crumb>)
      ensures |steps| > 0 ==> Last(steps).ptr in Around(steps)
    {
      if |steps| > 0 {
        AroundRest(steps);
      }
    }

    /** Around an empty place lies the whole tree. */
    static lemma PlaceElements(steps: seq<Crumb>)
      ensures InOrder(Plug(steps, Leaf)) == Around(steps)
    {
      PlugInOrder(steps, Leaf);
      hide Plug, Before, After;
      var a, z := Before(steps), After(steps);
      assert InOrder(Leaf) == [];
      assert a + [] + z == a + z;
    }

    /** What the climb after an insert starts from. */
    static lemma InsertClimb(steps: seq<Crumb>, p: Ptr)
      requires NoDup(Around(steps)) && p !in Around(steps) && WeakPath(steps)
      ensures var leaf := Node(Leaf, p, 0, 1, Leaf);
              && NoDup(InOrder(Plug(Bump(steps, 1), leaf))) && WeakPath(Bump(steps, 1)) && Weak(leaf)
              && InOrder(Plug(Bump(steps, 1), leaf)) == Before(steps) + [p] + After(steps)
              && forall x :: x in InOrder(Plug(Bump(steps, 1), leaf)) ==> x in Around(steps) + [p]
    {
      var leaf := Node(Leaf, p, 0, 1, Leaf);
      assert InOrder(leaf) == [p];
      BumpShape(steps, 1);
      PlugInOrder(Bump(steps, 1), leaf);
      NoDupInserted(Before(steps), p, After(steps));
    }

    /** jr_AVL_TreeInsertElementUsingKey: -1 when the key is present. */
    method InsertElementUsingKey(newNode: Ptr, k: int) returns (status: int, ghost steps: seq<Crumb>)
      requires Valid() && Sorted(Elements(), key)
      requires newNode != 0 && newNode in mem && newNode !in Elements() && key(newNode) == k
      modifies `root, `mem, `tree
      ensures Valid() && Sorted(Elements(), key)
      ensures status == 0 || status == -1
      ensures status == -1 <==> exists x :: x in old(Elements()) && key(x) == k
      ensures status == -1 ==> tree == old(tree) && mem == old(mem) && root == old(root)
      ensures status == 0 ==> old(Elements()) == Before(steps) + After(steps)
      ensures status == 0 ==> Elements() == Before(steps) + [newNode] + After(steps)
      ensures status == 0 && Avl(old(tree)) ==> Avl(tree)
      ensures Confined(old(mem), mem, old(Elements()) + [newNode])
    {
      hide InOrder, Around, RepPath, Rep, NoDup, Weak, SizesExact, BalanceUp, Plug, Inserted;
      var path, curr, lastLeft;
      ghost var sub;
      path, curr, lastLeft, steps, sub := DescendByKey(k);
      RootFields(mem, curr, sub);
      PlugInOrder(steps, sub);
      if curr != 0 {
        assert curr in Elements();
        return -1, steps;
      }
      EmptyPlace(steps, sub, key, k);
      AppendToPath(path, lastLeft, newNode, steps);
      InsertedElements(steps, newNode);
      SortedWithInserted(Before(steps), newNode, After(steps), key);
      if Avl(old(tree)) {
        InsertKeepsAvl(steps, newNode);
      }
      status := 0;
    }

    /** When the search ends at a null pointer no element has the key. */
    static lemma EmptyPlace(steps: seq<Crumb>, sub: Tree, key: Ptr -> int, k: int)
      requires sub.Leaf? && AllBelow(Before(steps), key, k) && AllAbove(After(steps), key, k)
      ensures InOrder(Plug(steps, sub)) == Before(steps) + After(steps)
      ensures forall x :: x in InOrder(Plug(steps, sub)) ==> key(x) != k
    {
      PlaceElements(steps);
      hide Plug, Before, After, InOrder;
      var s := Before(steps) + After(steps);
      forall x | x in s
        ensures key(x) != k
      {
        var i :| 0 <= i < |s| && s[i] == x;
        assert x == if i < |Before(steps)| then Before(steps)[i] else After(steps)[i - |Before(steps)|];
      }
    }

    // ----- extracting -----

    /** Makes the parent of the deleted element point to its replacement, with
        one test for each side. */
    method ReplaceInParent(deleted: Ptr, parent: Ptr, next: Ptr, ghost steps: seq<Crumb>)
      requires parent == if |steps| == 0 then 0 else Last(steps).ptr
      requires |steps| > 0 ==> parent != 0 && parent in mem
      requires |steps| > 0 && Last(steps).WentLeft? ==> mem[parent].left == deleted && mem[parent].right != deleted
      requires |steps| > 0 && !Last(steps).WentLeft? ==> mem[parent].right == deleted && mem[parent].left != deleted
      modifies `mem, `root
      ensures mem == Linked(old(mem), steps, next)
      ensures root == if |steps| == 0 then next else old(root)
    {
      if parent != 0 {
        var l, r := mem[parent].left == deleted, mem[parent].right == deleted;
        if l {
          mem := mem[parent := mem[parent].(left := next)];
        }
        if r {
          mem := mem[parent := mem[parent].(right := next)];
        }
      } else {
        root := next;
      }
    }

    /** The relinking of jr_AVL_TreeExtractPathEnd when the deleted element has
        children: path is followed by the steps down to the replacement. */
    method MoveReplacement(path: seq<Ptr>, deletedIndex: nat, goLeft: bool,
                           ghost steps: seq<Crumb>, ghost down: Crumb, ghost spine: seq<Crumb>, ghost last: Tree)
      returns (replacement: Ptr)
      requires last.Node? && (goLeft ==> last.right.Leaf?) && (!goLeft ==> last.left.Leaf?)
      requires Follows(path, steps + [down] + spine + [if goLeft then RightStep(last) else LeftStep(last)])
      requires deletedIndex == |steps| && goLeft == down.WentLeft?
      requires forall i :: 0 <= i < |spine| ==> spine[i].WentRight? == goLeft
      requires RepPath(mem, root, steps + [down] + spine, last.ptr) && Rep(mem, last.ptr, last)
      requires NoDup(InOrder(Plug(steps + [down] + spine, last)))
      modifies `mem, `root
      ensures replacement == last.ptr
      ensures Confined(old(mem), mem, InOrder(Plug(steps + [down] + spine, last)))
      ensures var hole := if goLeft then last.left else last.right;
              && (hole.Leaf? || hole.Node?)
              && RepPath(mem, root, steps + [down.(ptr := last.ptr)] + spine, if hole.Leaf? then 0 else hole.ptr)
              && Rep(mem, if hole.Leaf? then 0 else hole.ptr, hole)
    {
      hide InOrder, Around, RepPath, Rep, NoDup, Plug, Before, After, Linked;
      ghost var full := steps + [down] + spine;
      ghost var elements := InOrder(Plug(full, last));
      ghost var hole := if goLeft then last.left else last.right;
      PathParts(full, last);
      AroundIn(full, last);
      NodeFacts(mem, last);
      var n := |path|;
      replacement := path[n - 1];
      var deleted, parent := path[deletedIndex], path[n - 2];
      var below: Ptr := if goLeft then mem[replacement].left else mem[replacement].right;
      assert below == if hole.Leaf? then 0 else hole.ptr;
      assert parent == Last(full).ptr;
      LastAround(full);
      PathInMemory(mem, root, full, last.ptr);
      StepsAround(steps, down, spine);
      Redirect(mem, root, full, last.ptr, below);
      AfterLinking(mem, full, below, hole, below);
      if |spine| > 0 {
        CrumbParts(full);
        assert Rest(full) == steps + [down] + Rest(spine);
        StepsAround(steps, down, Rest(spine));
      }
      LinkedConfined(mem, full, below, elements);
      UnlinkReplacement(replacement, parent, deleted, goLeft, below, full, steps, spine);
      StandIn(deleted, if deletedIndex > 0 then path[deletedIndex - 1] else 0, replacement, steps, down, spine, below, hole, elements);
    }

    /** The replacement takes over the deleted element's cell and its parent. */
    method StandIn(deleted: Ptr, parent: Ptr, replacement: Ptr, ghost steps: seq<Crumb>, ghost down: Crumb, ghost spine: seq<Crumb>,
                   ghost below: Ptr, ghost hole: Tree, ghost elements: seq<Ptr>)
      requires RepPath(mem, root, steps + [down] + spine, below) && NoDup(Around(steps + [down] + spine)) && Rep(mem, below, hole)
      requires deleted == down.ptr && parent == if |steps| == 0 then 0 else Last(steps).ptr
      requires replacement != 0 && replacement in mem && replacement !in Around(steps + [down] + spine)
      requires forall x :: x in InOrder(hole) ==> x != replacement && x !in Around(steps + [down] + spine)
      requires replacement in elements && forall x :: x in Around(steps + [down] + spine) ==> x in elements
      modifies `mem, `root
      ensures RepPath(mem, root, steps + [down.(ptr := replacement)] + spine, below) && Rep(mem, below, hole)
      ensures Confined(old(mem), mem, elements)
    {
      hide InOrder, Around, RepPath, Rep, NoDup, Plug, Before, After, Linked;
      StepsAround(steps, down, spine);
      PrefixPath(mem, root, steps, down, spine, below);
      LastAround(steps);
      if |steps| > 0 {
        ParentSides(mem, root, steps, deleted);
      }
      PathInMemory(mem, root, steps + [down] + spine, below);
      ReplaceStep(mem, root, steps, down, spine, below, replacement);
      HoleUndisturbed(mem, replacement, deleted, steps, below, hole);
      mem := mem[replacement := mem[deleted]];
      LinkedConfined(mem, steps, replacement, elements);
      ReplaceInParent(deleted, parent, replacement, steps);
    }

    static lemma LinkedConfined(mem: Memory, path: seq<Crumb>, q: Ptr, s: seq<Ptr>)
      requires |path| > 0 ==> Last(path).ptr in mem && Last(path).ptr in s
      ensures Confined(mem, Linked(mem, path, q), s)
    {
    }

    /** The replacement's own subtree takes its place below its parent. */
    method UnlinkReplacement(replacement: Ptr, parent: Ptr, deleted: Ptr, goLeft: bool, below: Ptr,
                             ghost full: seq<Crumb>, ghost steps: seq<Crumb>, ghost spine: seq<Crumb>)
      requires |full| == |steps| + 1 + |spine| && full[..|steps|] == steps && full[|steps| + 1..] == spine
      requires parent == Last(full).ptr && parent in mem && deleted == full[|steps|].ptr && deleted in mem
      requires goLeft == full[|steps|].WentLeft?
      requires forall i :: 0 <= i < |spine| ==> spine[i].WentRight? == goLeft
      requires |spine| > 0 ==> parent != deleted
      modifies `mem
      ensures mem == Linked(old(mem), full, below)
    {
      if parent == deleted {
        if goLeft {
          mem := mem[parent := mem[parent].(left := below)];
        } else {
          mem := mem[parent := mem[parent].(right := below)];
        }
      } else if goLeft {
        mem := mem[parent := mem[parent].(right := below)];
      } else {
        mem := mem[parent := mem[parent].(left := below)];
      }
    }

    /** The first part of jr_AVL_TreeExtractPathEnd: the element at the end of
        the path is replaced, and the path leads to where rebalancing starts. */
    method DetachElement(path0: seq<Ptr>, ghost steps: seq<Crumb>, ghost t: Tree) returns (path: seq<Ptr>, ghost below: Ptr)
      requires Valid() && t.Node? && |path0| > 0 && path0[|path0| - 1] == t.ptr
      requires AtPlace(path0[..|path0| - 1], steps, t.ptr, t)
      modifies `mem, `root
      ensures var (p, hole) := ExtractPath(steps, t);
              Follows(path, p) && RepPath(mem, root, p, below) && Rep(mem, below, hole)
      ensures t.left.Node? && t.right.Node? ==>
                && |path| > |steps| && InOrder(t.left) != [] && InOrder(t.right) != []
                && path[|steps|] == if H(t.left) > H(t.right) then InOrder(t.left)[|InOrder(t.left)| - 1] else InOrder(t.right)[0]
      ensures Confined(old(mem), mem, Elements())
    {
      hide InOrder, Around, RepPath, Rep, NoDup, Weak, SizesExact, Plug, Before, After, Linked;
      OnThePath(steps, t);
      path := path0;
      var deletedIndex := |path| - 1;
      var deleted := path[deletedIndex];
      var parent := if |path| > 1 then path[|path| - 2] else 0;
      PathParts(steps, t);
      AroundIn(steps, t);
      NodeFacts(mem, t);
      var left, right := mem[deleted].left, mem[deleted].right;
      var goLeft, goRight := false, false;
      if left != 0 && right != 0 {
        if mem[left].height > mem[right].height {
          goLeft := true;
        } else {
          goRight := true;
        }
      } else if left != 0 {
        goLeft := true;
      } else if right != 0 {
        goRight := true;
      }
      if goLeft || goRight {
        path, below := DetachInner(path, if goLeft then left else right, goLeft, steps, t);
      } else {
        Redirect(mem, root, steps, deleted, 0);
        if |steps| > 0 {
          ParentSides(mem, root, steps, deleted);
          LastAround(steps);
        }
        LinkedConfined(mem, steps, 0, Elements());
        ReplaceInParent(deleted, parent, 0, steps);
        NullRep(mem);
        path := path[..|path| - 1];
        below := 0;
      }
    }

    static lemma OnThePath(steps: seq<Crumb>, t: Tree)
      requires t.Node?
      ensures var p := ExtractPath(steps, t).0;
              t.left.Node? && t.right.Node? ==>
                && |p| > |steps| && InOrder(t.left) != [] && InOrder(t.right) != []
                && p[|steps|].ptr == if H(t.left) > H(t.right) then InOrder(t.left)[|InOrder(t.left)| - 1] else InOrder(t.right)[0]
    {
      Replacement(steps, t);
      hide ExtractPath;
    }

    /** The part for an element with children. */
    method DetachInner(path0: seq<Ptr>, child: Ptr, goLeft: bool, ghost steps: seq<Crumb>, ghost t: Tree) returns (path: seq<Ptr>, ghost below: Ptr)
      requires Valid() && t.Node? && |path0| > 0 && path0[|path0| - 1] == t.ptr
      requires AtPlace(path0[..|path0| - 1], steps, t.ptr, t)
      requires goLeft == ReplacesFromLeft(t) && (t.left.Node? || t.right.Node?)
      requires t.ptr in mem && child == if goLeft then mem[t.ptr].left else mem[t.ptr].right
      modifies `mem, `root
      ensures var (p, hole) := ExtractPath(steps, t);
              Follows(path, p) && RepPath(mem, root, p, below) && Rep(mem, below, hole)
      ensures Confined(old(mem), mem, Elements())
    {
      hide InOrder, Around, RepPath, Rep, NoDup, Weak, SizesExact, Plug, Before, After, Linked, ReplacesFromLeft, SpineOf, ExtractPath, Spine;
      var deletedIndex := |path0| - 1;
      ghost var down := if goLeft then LeftStep(t) else RightStep(t);
      StepDown(mem, root, steps, t, goLeft);
      path := DescendSpine(path0, child, goLeft, steps + [down], if goLeft then t.left else t.right);
      SpineFacts(steps, t, goLeft);
      ghost var spine, last := SpineOf(t, goLeft).0, SpineOf(t, goLeft).1;
      StepBack(mem, root, steps + [down] + spine, last, goLeft);
      ghost var hole := if goLeft then last.left else last.right;
      var replacement := MoveReplacement(path, deletedIndex, goLeft, steps, down, spine, last);
      below := if hole.Leaf? then 0 else hole.ptr;
      ReplacedFollows(path, steps, down, spine, if goLeft then RightStep(last) else LeftStep(last), replacement);
      path := path[deletedIndex := replacement];
      path := path[..|path| - 1];
    }

    static lemma ReplacedFollows(path: seq<Ptr>, steps: seq<Crumb>, down: Crumb, spine: seq<Crumb>, c: Crumb, p: Ptr)
      requires Follows(path, steps + [down] + spine + [c])
      ensures |path| == |steps| + |spine| + 2
      ensures Follows(path[|steps| := p][..|path| - 1], steps + [down.(ptr := p)] + spine)
    {
    }

    static lemma NullRep(mem: Memory)
      ensures Rep(mem, 0, Leaf)
    {
    }

    static ghost function SpineOf(t: Tree, goLeft: bool): (seq<Crumb>, Tree)
      requires t.Node? && (if goLeft then t.left.Node? else t.right.Node?)
    {
      if goLeft then RightSpine(t.left) else LeftSpine(t.right)
    }

    static lemma SpineFacts(steps: seq<Crumb>, t: Tree, goLeft: bool)
      requires t.Node? && goLeft == ReplacesFromLeft(t) && (t.left.Node? || t.right.Node?)
      ensures if goLeft then t.left.Node? else t.right.Node?
      ensures var (spine, last) := SpineOf(t, goLeft);
              var down := if goLeft then LeftStep(t) else RightStep(t);
              && last.Node? && (goLeft ==> last.right.Leaf?) && (!goLeft ==> last.left.Leaf?)
              && steps + [down] + Spine(if goLeft then t.left else t.right, goLeft)
                 == steps + [down] + spine + [if goLeft then RightStep(last) else LeftStep(last)]
              && (forall i :: 0 <= i < |spine| ==> spine[i].WentRight? == goLeft)
              && ExtractPath(steps, t) == (steps + [down.(ptr := last.ptr)] + spine, if goLeft then last.left else last.right)
    {
      if goLeft {
        SpineEndsAtLastRight(t.left);
        SpineSides(t.left);
      } else {
        SpineEndsAtLastLeft(t.right);
        SpineSidesLeft(t.right);
      }
    }

    /** jr_AVL_TreeExtractPathEnd. */
    method ExtractPathEnd(path0: seq<Ptr>, ghost steps: seq<Crumb>, ghost t: Tree) returns (deleted: Ptr)
      requires Valid() && t.Node? && |path0| > 0 && path0[|path0| - 1] == t.ptr
      requires AtPlace(path0[..|path0| - 1], steps, t.ptr, t)
      modifies `root, `mem, `tree
      ensures deleted == t.ptr && tree == Extracted(steps, t) && Valid()
      ensures deleted in mem && mem[deleted].left == 0 && mem[deleted].right == 0 && mem[deleted].height == -1
      ensures Confined(old(mem), mem, old(Elements()))
    {
      hide InOrder, Around, RepPath, Rep, NoDup, Weak, SizesExact, Plug, Before, After, WeakPath, ExtractPath, BalanceUp;
      deleted := path0[|path0| - 1];
      NodeFacts1(mem, t);
      AroundIn(steps, t);
      ghost var below;
      ghost var p, hole := ExtractPath(steps, t).0, ExtractPath(steps, t).1;
      ExtractClimb(steps, t);
      var path;
      path, below := DetachElement(path0, steps, t);
      ChangeSizes(path, -1, p, below, hole);
      BumpAt(p, -1);
      BalancePath(path, Bump(p, -1), below, hole);
      ExtractedElements(steps, t);
      WithoutExtracted(steps, t);
      ghost var balanced := mem;
      mem := mem[deleted := mem[deleted].(left := 0, right := 0, height := -1)];
      TreeInMemory(balanced, root, tree);
      RepFrame(balanced, mem, root, tree);
    }

    /** What the climb after an extraction starts from. */
    static lemma ExtractClimb(steps: seq<Crumb>, t: Tree)
      requires t.Node? && NoDup(InOrder(Plug(steps, t))) && Weak(Plug(steps, t))
      ensures var p, hole := ExtractPath(steps, t).0, ExtractPath(steps, t).1;
              && NoDup(Around(p)) && (forall x :: x in InOrder(hole) ==> x !in Around(p))
              && NoDup(InOrder(Plug(Bump(p, -1), hole))) && WeakPath(Bump(p, -1)) && Weak(hole)
              && (forall x :: x in InOrder(Plug(Bump(p, -1), hole)) ==> x in InOrder(Plug(steps, t)))
              && (forall x :: x in Around(p) ==> x in InOrder(Plug(steps, t)))
    {
      hide InOrder, Around, NoDup, Weak, Plug, Before, After, WeakPath, ExtractPath;
      var p, hole := ExtractPath(steps, t).0, ExtractPath(steps, t).1;
      ExtractPlace(steps, t);
      WeakUnplug(steps, t);
      HoleWeak(steps, t);
      PathParts(p, hole);
      AroundIn(p, hole);
      BumpShape(p, -1);
      PlugInOrder(p, hole);
      PlugInOrder(Bump(p, -1), hole);
    }

    static lemma NodeFacts1(mem: Memory, t: Tree)
      requires t.Node? && Rep(mem, t.ptr, t)
      ensures t.ptr in mem && t.ptr in InOrder(t)
    {
    }

    static lemma WithoutExtracted(steps: seq<Crumb>, t: Tree)
      requires t.Node? && NoDup(InOrder(Plug(steps, t)))
      ensures NoDup(InOrder(Extracted(steps, t))) && t.ptr !in InOrder(Extracted(steps, t))
    {
      ExtractedElements(steps, t);
      hide InOrder, Plug, Before, After, Extracted;
      WithoutMiddle(Before(steps) + InOrder(t.left), t.ptr, InOrder(t.right) + After(steps));
    }

    /** jr_AVL_TreeExtractElementUsingKey: the null pointer when no element has
        the key. */
    method ExtractElementUsingKey(k: int) returns (deleted: Ptr, ghost before: seq<Ptr>, ghost after: seq<Ptr>)
      requires Valid() && Sorted(Elements(), key)
      modifies `root, `mem, `tree
      ensures Valid() && Sorted(Elements(), key)
      ensures deleted == 0 <==> forall x :: x in old(Elements()) ==> key(x) != k
      ensures deleted == 0 ==> tree == old(tree) && mem == old(mem) && root == old(root)
      ensures deleted != 0 ==> key(deleted) == k && old(Elements()) == before + [deleted] + after
      ensures deleted != 0 ==> Elements() == before + after
      ensures deleted != 0 ==> deleted in mem && mem[deleted].left == 0 == mem[deleted].right && mem[deleted].height == -1
      ensures Confined(old(mem), mem, old(Elements()))
    {
      hide InOrder, Around, RepPath, Rep, NoDup, Weak, SizesExact, Plug, Before, After, Extracted;
      var path, curr, lastLeft;
      ghost var steps, sub;
      path, curr, lastLeft, steps, sub := DescendByKey(k);
      RootFields(mem, curr, sub);
      before, after := [], [];
      if curr == 0 {
        EmptyPlace(steps, sub, key, k);
        return 0, before, after;
      }
      NodeFacts1(mem, sub);
      AroundIn(steps, sub);
      ExtractedElements(steps, sub);
      before, after := Before(steps) + InOrder(sub.left), InOrder(sub.right) + After(steps);
      SortedWithout(before, curr, after, key);
      assert (path + [curr])[..|path|] == path;
      deleted := ExtractPathEnd(path + [curr], steps, sub);
    }
  }
}
