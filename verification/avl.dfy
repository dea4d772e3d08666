/**
 * Class AVL as operations on the linked nodes of module Bst.
 *
 * An AVL node is a BST node whose children are AVL nodes, so the one node
 * class serves both; the methods here are the ones class AVL adds or
 * overrides.  The rotations rewire child fields and return the new root of
 * the subtree, keeping the same node objects; add and delete return the
 * (possibly new) root, which the caller stores.
 */
module Avl {
  import opened Trees
  import AvlSpec
  import opened Bst

  /** slr: the right child moves up; its left subtree becomes the old root's right child. */
  method Slr(t: BstNode) returns (r: BstNode)
    requires t.Valid() && t.Model.Node? && t.Model.right.Node?
    modifies t, t.right
    ensures r == old(t.right) && r.left == t
    ensures r.Valid() && r.Repr == old(t.Repr)
    ensures r.Model == AvlSpec.RotateLeft(old(t.Model))
  {
    var node := t.right;
    assert node.Valid();
    var a, b, c := t.left, node.left, node.right;
    assert a.Valid() && b.Valid() && c.Valid();
    assert t !in a.Repr && node !in a.Repr && t !in b.Repr && node !in b.Repr && t !in c.Repr && node !in c.Repr;
    t.SetRight(b);
    node.SetLeft(t);
    r := node;
  }

  /** srr: the left child moves up; its right subtree becomes the old root's left child. */
  method Srr(t: BstNode) returns (r: BstNode)
    requires t.Valid() && t.Model.Node? && t.Model.left.Node?
    modifies t, t.left
    ensures r == old(t.left) && r.right == t
    ensures r.Valid() && r.Repr == old(t.Repr)
    ensures r.Model == AvlSpec.RotateRight(old(t.Model))
  {
    var node := t.left;
    assert node.Valid();
    var a, b, c := node.left, node.right, t.right;
    assert a.Valid() && b.Valid() && c.Valid();
    assert t !in a.Repr && node !in a.Repr && t !in b.Repr && node !in b.Repr && t !in c.Repr && node !in c.Repr;
    t.SetLeft(b);
    node.SetRight(t);
    r := node;
  }

  /** dlr: srr on the right child, store it as the right child, then slr on this node. */
  method Dlr(t: BstNode) returns (r: BstNode)
    requires t.Valid() && t.Model.Node? && t.Model.right.Node? && t.Model.right.left.Node?
    modifies t.Repr
    ensures r.Valid() && r.Repr == old(t.Repr)
    ensures r.Model == AvlSpec.DoubleLeft(old(t.Model))
  {
    var nr := Srr(t.right);
    t.SetRight(nr);
    r := Slr(t);
  }

  /** drr: slr on the left child, store it as the left child, then srr on this node. */
  method Drr(t: BstNode) returns (r: BstNode)
    requires t.Valid() && t.Model.Node? && t.Model.left.Node? && t.Model.left.right.Node?
    modifies t.Repr
    ensures r.Valid() && r.Repr == old(t.Repr)
    ensures r.Model == AvlSpec.DoubleRight(old(t.Model))
  {
    var nl := Slr(t.left);
    t.SetLeft(nl);
    r := Srr(t);
  }

  /**
   * balance(): unchanged when empty or when the children's heights differ by
   * less than two; otherwise srr or drr when the left side is higher, dlr or
   * slr when the right side is.
   */
  method Balance(t: BstNode) returns (r: BstNode)
    requires t.Valid()
    modifies t.Repr
    ensures r.Valid() && r.Repr == old(t.Repr)
    ensures r.Model == AvlSpec.Balance(old(t.Model))
  {
    if t.value.None? {
      return t;
    }
    var lh: int, rh: int := t.left.Height(), t.right.Height();
    if AvlSpec.Abs(lh - rh) >= 2 {
      if lh > rh {
        if t.left.left.Height() >= t.left.right.Height() {
          r := Srr(t);
        } else {
          r := Drr(t);
        }
      } else {
        if t.right.left.Height() > t.right.right.Height() {
          r := Dlr(t);
        } else {
          r := Slr(t);
        }
      }
    } else {
      r := t;
    }
  }

  /**
   * add(v): BST.add's body on this node, whose recursive add on a child is
   * AVL.add again, then balance() here.
   */
  method Add(t: BstNode, v: int) returns (r: BstNode)
    requires t.Valid()
    modifies t.Repr
    ensures r.Valid() && fresh(r.Repr - old(t.Repr))
    ensures r.Model == AvlSpec.AvlInsert(old(t.Model), v)
    decreases t.Repr
  {
    if t.value.None? {
      t.Init(v);
    } else {
      var x := t.value.value;
      if v < x {
        var nl := Add(t.left, v);
        t.Cons(nl, t.right);
      } else if v > x {
        var nr := Add(t.right, v);
        t.Cons(t.left, nr);
      }
    }
    r := Balance(t);
  }

  /** delete(v): BST.delete, a stub whose result is ignored, then balance(). */
  method Delete(t: BstNode, v: int) returns (r: BstNode)
    requires t.Valid()
    modifies t.Repr
    ensures r.Valid() && r.Repr == old(t.Repr)
    ensures r.Model == AvlSpec.AvlDelete(old(t.Model), v)
  {
    var _ := t.Delete(v);
    r := Balance(t);
  }

  /** Adding 10, 20 and 30 to an empty AVL node: slr at the root leaves 20 on top. */
  method AscendingScenario() returns (root: BstNode)
    ensures root.Valid()
    ensures root.Model == Tree.Node(Tree.Node(Empty, 10, Empty), 20, Tree.Node(Empty, 30, Empty))
    ensures root.Inorder() == [10, 20, 30] && root.Height() == 2
  {
    AvlSpec.AscendingInsertions();
    root := new BstNode(None);
    root := Add(root, 10);
    root := Add(root, 20);
    root := Add(root, 30);
  }
}
