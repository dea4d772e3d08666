/**
 * Class BST as linked, mutable nodes.
 *
 * A node whose value is None is an empty subtree and has no children; a node
 * with a value owns two child nodes, possibly empty ones.  Model is the
 * abstract tree rooted at the node and Repr the node objects it is made of;
 * Valid() ties the fields to both, and keeps ownership tree-shaped.  The
 * child accessors of the base node class (lc, rc, set_lc, set_rc, cons,
 * value, set_value) are plain field reads and writes here.
 */
module Bst {
  import opened Trees
  import BstSpec
  import BfsSpec

  class BstNode {
    var value: Option<int>
    var left: BstNode?
    var right: BstNode?

    ghost var Model: Tree
    ghost var Repr: set<object>

    ghost predicate Valid()
      reads this, Repr
      decreases Repr
    {
      this in Repr &&
      match value
      case None =>
        left == null && right == null && Repr == {this} && Model == Empty
      case Some(x) =>
        left != null && right != null &&
        left in Repr && right in Repr &&
        left.Repr <= Repr && right.Repr <= Repr &&
        this !in left.Repr && this !in right.Repr &&
        left.Repr !! right.Repr &&
        Repr == {this} + left.Repr + right.Repr &&
        left.Valid() && right.Valid() &&
        Model == Tree.Node(left.Model, x, right.Model)
    }

    /** __init__: an empty node, or a value with two empty children. */
    constructor (v: Option<int>)
      ensures Valid() && fresh(Repr)
      ensures Model == if v.None? then Empty else Tree.Node(Empty, v.value, Empty)
      decreases if v.None? then 0 else 1
    {
      value := v;
      if v.None? {
        left, right := null, null;
        Repr := {this};
        Model := Empty;
      } else {
        var l := new BstNode(None);
        var r := new BstNode(None);
        left, right := l, r;
        Repr := {this} + l.Repr + r.Repr;
        Model := Tree.Node(Empty, v.value, Empty);
      }
    }

    /** Rerunning __init__(value=v) on an empty node: it becomes a one-value leaf. */
    method Init(v: int)
      requires Valid() && value.None?
      modifies this
      ensures Valid() && fresh(Repr - old(Repr))
      ensures Model == Tree.Node(Empty, v, Empty)
    {
      value := Some(v);
      var l := new BstNode(None);
      var r := new BstNode(None);
      left, right := l, r;
      Repr := {this} + l.Repr + r.Repr;
      Model := Tree.Node(Empty, v, Empty);
    }

    /** cons(l, r): both children replaced at once; the value stays. */
    method Cons(l: BstNode, r: BstNode)
      requires value.Some? && l.Valid() && r.Valid()
      requires this !in l.Repr && this !in r.Repr && l.Repr !! r.Repr
      modifies this
      ensures left == l && right == r && value == old(value)
      ensures Valid() && Repr == {this} + l.Repr + r.Repr
      ensures Model == Tree.Node(l.Model, value.value, r.Model)
    {
      left, right := l, r;
      Repr := {this} + l.Repr + r.Repr;
      Model := Tree.Node(l.Model, value.value, r.Model);
    }

    /** set_lc(n): n becomes the left child; this node's value and right child stay. */
    method SetLeft(n: BstNode)
      requires value.Some? && right != null && n.Valid() && right.Valid()
      requires this !in n.Repr && this !in right.Repr && n.Repr !! right.Repr
      modifies this
      ensures left == n && right == old(right) && value == old(value)
      ensures Valid() && Repr == {this} + n.Repr + right.Repr
      ensures Model == Tree.Node(n.Model, value.value, right.Model)
    {
      left := n;
      Repr := {this} + n.Repr + right.Repr;
      Model := Tree.Node(n.Model, value.value, right.Model);
    }

    /** set_rc(n): n becomes the right child; this node's value and left child stay. */
    method SetRight(n: BstNode)
      requires value.Some? && left != null && n.Valid() && left.Valid()
      requires this !in n.Repr && this !in left.Repr && n.Repr !! left.Repr
      modifies this
      ensures right == n && left == old(left) && value == old(value)
      ensures Valid() && Repr == {this} + left.Repr + n.Repr
      ensures Model == Tree.Node(left.Model, value.value, n.Model)
    {
      right := n;
      Repr := {this} + left.Repr + n.Repr;
      Model := Tree.Node(left.Model, value.value, n.Model);
    }

    /** is_member(v), following the search path over the linked nodes. */
    function IsMember(v: int): (b: bool)
      reads this, Repr
      requires Valid()
      ensures b == Trees.IsMember(Model, v)
      decreases Repr
    {
      match value
      case None => false
      case Some(x) =>
        if v == x then true
        else if v < x then left.IsMember(v)
        else right.IsMember(v)
    }

    function Size(): (n: nat)
      reads this, Repr
      requires Valid()
      ensures n == Trees.Size(Model)
      decreases Repr
    {
      match value
      case None => 0
      case Some(_) => 1 + left.Size() + right.Size()
    }

    function Height(): (h: nat)
      reads this, Repr
      requires Valid()
      ensures h == Trees.Height(Model)
      decreases Repr
    {
      match value
      case None => 0
      case Some(_) =>
        var lh := left.Height();
        var rh := right.Height();
        if lh > rh then lh + 1 else rh + 1
    }

    function Preorder(): (s: seq<int>)
      reads this, Repr
      requires Valid()
      ensures s == Trees.Preorder(Model)
      decreases Repr
    {
      match value
      case None => []
      case Some(x) => [x] + left.Preorder() + right.Preorder()
    }

    function Inorder(): (s: seq<int>)
      reads this, Repr
      requires Valid()
      ensures s == Trees.Inorder(Model)
      decreases Repr
    {
      match value
      case None => []
      case Some(x) => left.Inorder() + [x] + right.Inorder()
    }

    /** postorder() as written: the children are listed with inorder(). */
    function Postorder(): (s: seq<int>)
      reads this, Repr
      requires Valid()
      ensures s == Trees.Postorder(Model)
      decreases Repr
    {
      match value
      case None => []
      case Some(x) => left.Inorder() + right.Inorder() + [x]
    }

    /**
     * add(v): an empty node becomes a leaf holding v; otherwise the value goes
     * into the child on its side of this node's value, and the child slot is
     * overwritten with what the child's add returns (cons).  A value equal to
     * this node's leaves everything alone.  The node itself is returned.
     */
    method Add(v: int) returns (r: BstNode)
      requires Valid()
      modifies Repr
      ensures r == this
      ensures Valid() && fresh(Repr - old(Repr))
      ensures Model == BstSpec.Insert(old(Model), v)
      decreases Repr
    {
      if value.None? {
        Init(v);
      } else {
        var x := value.value;
        if v < x {
          var nl := left.Add(v);
          Cons(nl, right);
        } else if v > x {
          var nr := right.Add(v);
          Cons(left, nr);
        }
      }
      r := this;
    }

    /** delete(v) is a stub: it returns the tree unchanged. */
    method Delete(v: int) returns (r: BstNode)
      requires Valid()
      ensures r == this
    {
      r := this;
    }

    /**
     * bfs_order_star(): a queue walk over every node object, then the
     * expansion pass over h*(h-1) positions, then truncation to 2^h - 1
     * entries.  The outcome is IndexError when the expansion pass reads past
     * the end of the list.
     */
    method BfsOrderStar() returns (r: BfsSpec.Outcome)
      requires Valid()
      ensures r == BfsSpec.BfsStar(Model)
    {
      if value.None? {
        return BfsSpec.Returned([]);
      }
      var arr := LevelWalk();
      var h := Height();
      var expanded := ExpandStars(arr, h);
      match expanded
      case IndexError =>
        r := BfsSpec.IndexError;
      case Returned(full) =>
        var kept := PopTo(full, Pow2(h) - 1);
        r := BfsSpec.Returned(kept);
    }

    /** The first loop of bfs_order_star(): pop a node, record its value, enqueue its children. */
    method LevelWalk() returns (arr: seq<Option<int>>)
      requires Valid()
      ensures arr == BfsSpec.LevelOrder([Model])
    {
      var queue: seq<BstNode> := [this];
      arr := [];
      ghost var trees: seq<Tree> := [Model];
      while |queue| > 0
        invariant |trees| == |queue|
        invariant forall i :: 0 <= i < |queue| ==> queue[i].Valid() && queue[i].Model == trees[i]
        invariant arr + BfsSpec.LevelOrder(trees) == BfsSpec.LevelOrder([Model])
        decreases BfsSpec.Weight(trees)
      {
        var parent := queue[0];
        ghost var before, t := trees, trees[0];
        ghost var done := arr;
        arr := arr + [parent.value];
        queue, trees := queue[1..], trees[1..];
        if parent.left != null {
          queue, trees := queue + [parent.left], trees + [t.left];
        }
        if parent.right != null {
          queue, trees := queue + [parent.right], trees + [t.right];
        }
        if t.Node? {
          assert parent.value == Some(t.value);
          assert trees == before[1..] + [t.left, t.right];
          BfsSpec.WeightPop(before);
          assert BfsSpec.LevelOrder(before) == [Some(t.value)] + BfsSpec.LevelOrder(trees);
        } else {
          assert parent.value == None;
          assert trees == before[1..];
          assert BfsSpec.LevelOrder(before) == [None] + BfsSpec.LevelOrder(trees);
        }
        assert arr + BfsSpec.LevelOrder(trees) == done + BfsSpec.LevelOrder(before);
      }
    }
  }

  /**
   * The counter loops of bfs_order_star(): for i below h and j below 2*i,
   * a None at position counter gets two None entries inserted at
   * 2*counter + 1 and 2*counter + 2.  Reading arr[counter] past the end is
   * the IndexError outcome.
   */
  method ExpandStars(arr0: seq<Option<int>>, h: nat) returns (r: BfsSpec.Outcome)
    ensures r == BfsSpec.Expand(arr0, 0, BfsSpec.Steps(h))
  {
    var arr := arr0;
    var counter := 0;
    ghost var total := BfsSpec.Steps(h);
    ghost var goal := BfsSpec.Expand(arr0, 0, total);
    for i := 0 to h
      invariant counter == BfsSpec.Steps(i) <= total
      invariant BfsSpec.Expand(arr, counter, total - counter) == goal
    {
      StepsMonotone(i + 1, h);
      assert BfsSpec.Steps(i + 1) == counter + 2 * i;
      for j := 0 to 2 * i
        invariant counter == BfsSpec.Steps(i) + j <= total
        invariant BfsSpec.Expand(arr, counter, total - counter) == goal
      {
        BfsSpec.ExpandOnce(arr, counter, total - counter);
        if counter >= |arr| {
          return BfsSpec.IndexError;
        }
        arr := VisitStar(arr, counter);
        counter := counter + 1;
      }
    }
    r := BfsSpec.Returned(arr);
  }

  /** The body of the inner counter loop: a None at position counter gets two None entries after it. */
  method VisitStar(arr0: seq<Option<int>>, counter: nat) returns (arr: seq<Option<int>>)
    requires counter < |arr0|
    ensures arr == BfsSpec.ExpandAt(arr0, counter)
    ensures |arr| == if arr0[counter] == None then |arr0| + 2 else |arr0|
  {
    arr := arr0;
    if arr[counter] == None {
      arr := BfsSpec.ListInsert(arr, counter * 2 + 1, None);
      arr := BfsSpec.ListInsert(arr, counter * 2 + 2, None);
    }
  }

  /** The last loop of bfs_order_star(): pop from the end while more than n entries are left. */
  method PopTo(arr0: seq<Option<int>>, n: nat) returns (arr: seq<Option<int>>)
    ensures arr == BfsSpec.Truncate(arr0, n)
  {
    arr := arr0;
    while |arr| > n
      invariant |arr| <= |arr0| && arr == arr0[..|arr|]
      invariant |arr| < |arr0| ==> |arr| >= n
      decreases |arr|
    {
      arr := arr[..|arr| - 1];
    }
  }

  lemma {:induction false} StepsMonotone(i: nat, h: nat)
    requires i <= h
    ensures BfsSpec.Steps(i) <= BfsSpec.Steps(h)
    decreases h
  {
    if i < h {
      StepsMonotone(i, h - 1);
    }
  }

  /** The tree of bfs_order_star's documentation built by add: 10, 5, 15, then 20. */
  method DocumentedScenario() returns (r: BfsSpec.Outcome)
    ensures r == BfsSpec.Returned([Some(10), Some(5), Some(15), None, None, None, Some(20)])
  {
    var root := new BstNode(None);
    root := root.Add(10);
    root := root.Add(5);
    root := root.Add(15);
    root := root.Add(20);
    assert root.Model == BfsSpec.DocumentedTree();
    r := root.BfsOrderStar();
    BfsSpec.BfsStarExample();
  }
}
