/** Whole runs of inserts and extracts, at any places of the tree. */
module AvlRuns {
  import opened Sequences
  import opened AvlShape
  import opened AvlExtract
  import opened AvlMemory
  import opened AvlSpine

  /** An insert at an empty place, or an extract of the root of a subtree, each
      given by the path of its search. */
  datatype Op =
    | Insert(steps: seq<Crumb>, p: Ptr)
    | Extract(steps: seq<Crumb>, t: Tree)

  ghost predicate Applies(op: Op, tree: Tree) {
    match op
    case Insert(steps, p) => Plug(steps, Leaf) == tree && p != 0 && p !in InOrder(tree)
    case Extract(steps, t) => t.Node? && Plug(steps, t) == tree
  }

  /** An insert by key: the path is the one the search for that key takes. */
  ghost predicate InKeyOrder(op: Op, key: Ptr -> int) {
    op.Insert? ==> AllBelow(Before(op.steps), key, key(op.p)) && AllAbove(After(op.steps), key, key(op.p))
  }

  function Result(op: Op, tree: Tree): Tree {
    match op
    case Insert(steps, p) => Inserted(steps, p)
    case Extract(steps, t) => if t.Node? then Extracted(steps, t) else tree
  }

  /** A run: the tree before every operation and the one after the last. */
  ghost predicate IsRun(ops: seq<Op>, trees: seq<Tree>) {
    && |trees| == |ops| + 1 && trees[0] == Leaf
    && forall i :: 0 <= i < |ops| ==> Applies(ops[i], trees[i]) && trees[i + 1] == Result(ops[i], trees[i])
  }

  ghost predicate Sound(tree: Tree) {
    NoDup(InOrder(tree)) && 0 !in InOrder(tree) && SizesExact(tree) && Weak(tree)
  }

  /** One element more or less, at one position of the in-order sequence. */
  ghost predicate ChangesOne(op: Op, s: seq<Ptr>, s2: seq<Ptr>) {
    match op
    case Insert(steps, p) => exists i :: 0 <= i <= |s| && s2 == s[..i] + [p] + s[i..]
    case Extract(steps, t) => exists i :: 0 <= i < |s| && t.Node? && s[i] == t.ptr && s2 == s[..i] + s[i + 1..]
  }

  /** The climb after the operation never asks for an impossible rotation. */
  ghost predicate NeverStuck(op: Op) {
    match op
    case Insert(steps, p) => ClimbPossible(Bump(steps, 1), Node(Leaf, p, 0, 1, Leaf))
    case Extract(steps, t) => t.Node? && ClimbPossible(Bump(ExtractPath(steps, t).0, -1), ExtractPath(steps, t).1)
  }

  lemma WeakNeverStuck(op: Op, tree: Tree)
    requires Applies(op, tree) && Weak(tree)
    ensures NeverStuck(op)
  {
    hide ClimbPossible, Bump, ExtractPath, Plug, InOrder;
    match op
    case Insert(steps, p) =>
      WeakUnplug(steps, Leaf);
      BumpShape(steps, 1);
      WeakClimb(Bump(steps, 1), Node(Leaf, p, 0, 1, Leaf));
    case Extract(steps, t) =>
      WeakUnplug(steps, t);
      HoleWeak(steps, t);
      BumpShape(ExtractPath(steps, t).0, -1);
      WeakClimb(Bump(ExtractPath(steps, t).0, -1), ExtractPath(steps, t).1);
  }

  lemma InsertStep(steps: seq<Crumb>, p: Ptr, tree: Tree)
    requires Applies(Insert(steps, p), tree) && Sound(tree)
    ensures Sound(Inserted(steps, p)) && ChangesOne(Insert(steps, p), InOrder(tree), InOrder(Inserted(steps, p)))
    ensures InOrder(tree) == Before(steps) + After(steps)
    ensures InOrder(Inserted(steps, p)) == Before(steps) + [p] + After(steps)
  {
    hide Before, After, Inserted, Plug, SizesExact, Weak;
    InsertedElements(steps, p);
    var a, b := Before(steps), After(steps);
    PlugInOrder(steps, Leaf);
    assert InOrder(Leaf) == [] && a + [] + b == a + b;
    var s, s2 := a + b, a + [p] + b;
    NoDupInserted(a, p, b);
    assert s2 == s[..|a|] + [p] + s[|a|..];
  }

  lemma ExtractStep(steps: seq<Crumb>, t: Tree, tree: Tree)
    requires Applies(Extract(steps, t), tree) && Sound(tree)
    ensures Sound(Extracted(steps, t)) && ChangesOne(Extract(steps, t), InOrder(tree), InOrder(Extracted(steps, t)))
    ensures t.ptr in InOrder(tree) && t.ptr !in InOrder(Extracted(steps, t))
  {
    hide Before, After, Extracted, Plug, InOrder, SizesExact, Weak;
    ExtractedElements(steps, t);
    var a, b := Before(steps) + InOrder(t.left), InOrder(t.right) + After(steps);
    WithoutMiddle(a, t.ptr, b);
    var s, s2 := a + [t.ptr] + b, a + b;
    assert s[|a|] == t.ptr && s2 == s[..|a|] + s[|a| + 1..];
  }

  lemma ShorterRun(ops: seq<Op>, trees: seq<Tree>)
    requires IsRun(ops, trees) && |ops| > 0
    ensures var n := |ops|;
            && IsRun(ops[..n - 1], trees[..n])
            && Applies(ops[n - 1], trees[n - 1]) && trees[n] == Result(ops[n - 1], trees[n - 1])
            && trees[..n][n - 1] == trees[n - 1]
  {
    hide Applies, Result;
    var n := |ops|;
    var rest, was := ops[..n - 1], trees[..n];
    assert forall i :: 0 <= i < n - 1 ==> rest[i] == ops[i] && was[i + 1] == trees[i + 1];
  }

  lemma OneStep(op: Op, tree: Tree)
    requires Applies(op, tree) && Sound(tree)
    ensures Sound(Result(op, tree)) && ChangesOne(op, InOrder(tree), InOrder(Result(op, tree))) && NeverStuck(op)
  {
    WeakNeverStuck(op, tree);
    hide NeverStuck, Sound, InOrder, Inserted, Extracted, Plug, ChangesOne;
    match op
    case Insert(steps, p) => InsertStep(steps, p, tree);
    case Extract(steps, t) => ExtractStep(steps, t, tree);
  }

  /** Over any run, from the empty tree, every operation adds or removes exactly
      one element and leaves the others in order, stored sizes are exact, no
      element occurs twice, and no rotation needs a child that is not there. */
  lemma {:induction false} EveryRun(ops: seq<Op>, trees: seq<Tree>)
    requires IsRun(ops, trees)
    ensures forall i :: 0 <= i < |trees| ==> Sound(trees[i])
    ensures forall i :: 0 <= i < |ops| ==> ChangesOne(ops[i], InOrder(trees[i]), InOrder(trees[i + 1]))
    ensures forall i :: 0 <= i < |ops| ==> NeverStuck(ops[i])
  {
    var n := |ops|;
    if n > 0 {
      var rest, was := ops[..n - 1], trees[..n];
      ShorterRun(ops, trees);
      EveryRun(rest, was);
      hide *;
      OneStep(ops[n - 1], trees[n - 1]);
      forall i | 0 <= i < n
        ensures Sound(trees[i])
      {
        assert was[i] == trees[i];
      }
      forall i | 0 <= i < n - 1
        ensures ChangesOne(ops[i], InOrder(trees[i]), InOrder(trees[i + 1])) && NeverStuck(ops[i])
      {
        assert rest[i] == ops[i] && was[i] == trees[i] && was[i + 1] == trees[i + 1];
      }
    } else {
      EmptyTree();
    }
  }

  /** A run whose inserts follow the key order keeps the keys strictly sorted. */
  lemma {:induction false} KeyRunSorted(ops: seq<Op>, trees: seq<Tree>, key: Ptr -> int)
    requires IsRun(ops, trees)
    requires forall i :: 0 <= i < |ops| ==> InKeyOrder(ops[i], key)
    ensures forall i :: 0 <= i < |trees| ==> Sorted(InOrder(trees[i]), key)
  {
    var n := |ops|;
    if n > 0 {
      var rest, was := ops[..n - 1], trees[..n];
      ShorterRun(ops, trees);
      KeyRunSorted(rest, was, key);
      EveryRun(ops, trees);
      hide *;
      KeyStep(ops[n - 1], trees[n - 1], key);
      forall i | 0 <= i < n
        ensures Sorted(InOrder(trees[i]), key)
      {
        assert was[i] == trees[i];
      }
    } else {
      EmptyTree();
    }
  }

  lemma KeyStep(op: Op, tree: Tree, key: Ptr -> int)
    requires Applies(op, tree) && InKeyOrder(op, key) && Sound(tree) && Sorted(InOrder(tree), key)
    ensures Sorted(InOrder(Result(op, tree)), key)
  {
    hide Inserted, Extracted, Plug, InOrder, NoDup, Before, After, SizesExact, Weak, AllBelow, AllAbove, Sorted, Sound;
    match op
    case Insert(steps, p) =>
      InsertStep(steps, p, tree);
      SortedWithInserted(Before(steps), p, After(steps), key);
    case Extract(steps, t) =>
      ExtractedElements(steps, t);
      SortedWithout(Before(steps) + InOrder(t.left), t.ptr, InOrder(t.right) + After(steps), key);
  }

  /** A run of inserts alone keeps every stored height exact and siblings within
      one of each other, so every search path fits in the path arrays. */
  lemma {:induction false} InsertRun(ops: seq<Op>, trees: seq<Tree>, path: seq<Crumb>, t: Tree, pointerBytes: nat)
    requires IsRun(ops, trees) && forall i :: 0 <= i < |ops| ==> ops[i].Insert?
    requires Plug(path, t) == trees[|ops|]
    requires pointerBytes == 4 || pointerBytes == 8
    requires |ops| < if pointerBytes == 4 then 0x1_0000_0000 else 0x1_0000_0000_0000_0000
    ensures forall i :: 0 <= i < |trees| ==> Avl(trees[i])
    ensures |path| + Height(t) + 1 <= 12 * pointerBytes
  {
    InsertsKeepAvl(ops, trees);
    AvlUnplug(path, t);
    PathFits(path, t, pointerBytes);
  }

  lemma {:induction false} InsertsKeepAvl(ops: seq<Op>, trees: seq<Tree>)
    requires IsRun(ops, trees) && forall i :: 0 <= i < |ops| ==> ops[i].Insert?
    ensures forall i :: 0 <= i < |trees| ==> Avl(trees[i])
    ensures |InOrder(trees[|ops|])| == |ops|
  {
    var n := |ops|;
    if n > 0 {
      var rest, was := ops[..n - 1], trees[..n];
      ShorterRun(ops, trees);
      InsertsKeepAvl(rest, was);
      hide *;
      OneInsert(ops[n - 1], trees[n - 1]);
      forall i | 0 <= i < n
        ensures Avl(trees[i])
      {
        assert was[i] == trees[i];
      }
    } else {
      EmptyTree();
    }
  }

  lemma OneInsert(op: Op, tree: Tree)
    requires op.Insert? && Applies(op, tree) && Avl(tree)
    ensures Avl(Result(op, tree)) && |InOrder(Result(op, tree))| == |InOrder(tree)| + 1
  {
    hide Inserted, InOrder, Avl, Plug, Before, After;
    InsertKeepsAvl(op.steps, op.p);
    InsertedElements(op.steps, op.p);
    PlugInOrder(op.steps, Leaf);
    EmptyTree();
  }

  lemma EmptyTree()
    ensures InOrder(Leaf) == [] && Sound(Leaf) && Avl(Leaf) && forall key: Ptr -> int :: Sorted(InOrder(Leaf), key)
  {
  }
}
