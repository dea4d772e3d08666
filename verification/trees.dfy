/**
 * The value-level view of the lab's binary trees.
 *
 * In the source every empty subtree is a real node whose value is None and
 * which has no children; here it is the constructor Empty.  A non-empty node
 * always has two children (possibly Empty).  The queries of class BST that
 * only recurse and concatenate lists are functions on this datatype; the
 * linked, mutable representation lives in module Bst and is tied to this
 * datatype through its ghost field Model.
 */
module Trees {

  datatype Option<T> = None | Some(value: T)

  datatype Tree = Empty | Node(left: Tree, value: int, right: Tree)

  /** BST.is_member: search by comparison, false at an empty node. */
  function IsMember(t: Tree, v: int): bool
  {
    match t
    case Empty => false
    case Node(l, x, r) =>
      if v == x then true
      else if v < x then IsMember(l, v)
      else IsMember(r, v)
  }

  /** BST.size: the number of non-empty nodes. */
  function Size(t: Tree): nat
  {
    match t
    case Empty => 0
    case Node(l, _, r) => 1 + Size(l) + Size(r)
  }

  /** BST.height: 0 for an empty node, one more than the taller child otherwise. */
  function Height(t: Tree): nat
  {
    match t
    case Empty => 0
    case Node(l, _, r) =>
      var lh := Height(l);
      var rh := Height(r);
      if lh > rh then lh + 1 else rh + 1
  }

  function Preorder(t: Tree): seq<int>
  {
    match t
    case Empty => []
    case Node(l, x, r) => [x] + Preorder(l) + Preorder(r)
  }

  function Inorder(t: Tree): seq<int>
  {
    match t
    case Empty => []
    case Node(l, x, r) => Inorder(l) + [x] + Inorder(r)
  }

  /**
   * BST.postorder as the source writes it: the two children are listed in
   * inorder, not in postorder (see IntendedPostorder).
   */
  function Postorder(t: Tree): seq<int>
  {
    match t
    case Empty => []
    case Node(l, x, r) => Inorder(l) + Inorder(r) + [x]
  }

  /** The set of values stored in the tree. */
  function Elements(t: Tree): set<int>
  {
    match t
    case Empty => {}
    case Node(l, x, r) => Elements(l) + {x} + Elements(r)
  }

  /** The BST ordering invariant: left values < node value < right values, at every node. */
  ghost predicate Ordered(t: Tree)
  {
    match t
    case Empty => true
    case Node(l, x, r) =>
      (forall y :: y in Elements(l) ==> y < x) &&
      (forall y :: y in Elements(r) ==> x < y) &&
      Ordered(l) && Ordered(r)
  }

  ghost predicate StrictlyAscending(s: seq<int>)
  {
    forall i, j :: 0 <= i < j < |s| ==> s[i] < s[j]
  }

  function Pow2(n: nat): (p: nat)
    ensures p >= 1
  {
    if n == 0 then 1 else 2 * Pow2(n - 1)
  }

  // ---------------------------------------------------------------------
  // Traversals, size and height

  /** The inorder listing holds exactly the elements of the tree. */
  lemma {:induction false} InorderElements(t: Tree, v: int)
    ensures v in Inorder(t) <==> v in Elements(t)
  {
    match t
    case Empty =>
    case Node(l, x, r) =>
      InorderElements(l, v);
      InorderElements(r, v);
  }

  /** size() is the length of every traversal. */
  lemma {:induction false} SizeIsTraversalLength(t: Tree)
    ensures |Inorder(t)| == Size(t)
    ensures |Preorder(t)| == Size(t)
    ensures |Postorder(t)| == Size(t)
  {
    match t
    case Empty =>
    case Node(l, x, r) =>
      SizeIsTraversalLength(l);
      SizeIsTraversalLength(r);
  }

  /** A non-empty tree is at least as large as it is high and at most a complete tree of its height. */
  lemma {:induction false} HeightBoundsSize(t: Tree)
    ensures Height(t) <= Size(t) <= Pow2(Height(t)) - 1
    ensures t.Node? ==> Height(t) >= 1
  {
    match t
    case Empty =>
    case Node(l, x, r) =>
      HeightBoundsSize(l);
      HeightBoundsSize(r);
      PowMonotone(Height(l), Height(t) - 1);
      PowMonotone(Height(r), Height(t) - 1);
  }

  lemma {:induction false} PowMonotone(a: nat, b: nat)
    requires a <= b
    ensures Pow2(a) <= Pow2(b)
  {
    if a < b {
      PowMonotone(a, b - 1);
    }
  }

  // ---------------------------------------------------------------------
  // Ordering and membership

  /** Splitting an ascending listing around one of its values. */
  lemma AscendingParts(a: seq<int>, x: int, b: seq<int>)
    requires StrictlyAscending(a + [x] + b)
    ensures StrictlyAscending(a) && StrictlyAscending(b)
    ensures forall y :: y in a ==> y < x
    ensures forall y :: y in b ==> x < y
  {
    var s := a + [x] + b;
    forall i, j | 0 <= i < j < |a| ensures a[i] < a[j] {
      assert s[i] == a[i] && s[j] == a[j];
    }
    forall i, j | 0 <= i < j < |b| ensures b[i] < b[j] {
      assert s[|a| + 1 + i] == b[i] && s[|a| + 1 + j] == b[j];
    }
    forall y | y in a ensures y < x {
      var i :| 0 <= i < |a| && a[i] == y;
      assert s[i] == y && s[|a|] == x;
    }
    forall y | y in b ensures x < y {
      var i :| 0 <= i < |b| && b[i] == y;
      assert s[|a| + 1 + i] == y && s[|a|] == x;
    }
  }

  /** Joining two ascending listings around a value that separates them. */
  lemma AscendingJoin(a: seq<int>, x: int, b: seq<int>)
    requires StrictlyAscending(a) && StrictlyAscending(b)
    requires forall y :: y in a ==> y < x
    requires forall y :: y in b ==> x < y
    ensures StrictlyAscending(a + [x] + b)
  {
    var s := a + [x] + b;
    forall i, j | 0 <= i < j < |s| ensures s[i] < s[j] {
      if j < |a| {
        assert s[i] == a[i] && s[j] == a[j];
      } else if i < |a| {
        assert s[i] == a[i] && a[i] in a;
        if j > |a| {
          assert s[j] == b[j - |a| - 1] && b[j - |a| - 1] in b;
        }
      } else if i == |a| {
        assert s[j] == b[j - |a| - 1] && b[j - |a| - 1] in b;
      } else {
        assert s[i] == b[i - |a| - 1] && s[j] == b[j - |a| - 1];
      }
    }
  }

  /** The BST ordering holds exactly when the inorder listing is strictly ascending. */
  lemma {:induction false} OrderedIffAscending(t: Tree)
    ensures Ordered(t) <==> StrictlyAscending(Inorder(t))
  {
    match t
    case Empty =>
    case Node(l, x, r) =>
      OrderedIffAscending(l);
      OrderedIffAscending(r);
      forall y ensures y in Inorder(l) <==> y in Elements(l) {
        InorderElements(l, y);
      }
      forall y ensures y in Inorder(r) <==> y in Elements(r) {
        InorderElements(r, y);
      }
      if Ordered(t) {
        AscendingJoin(Inorder(l), x, Inorder(r));
      }
      if StrictlyAscending(Inorder(t)) {
        AscendingParts(Inorder(l), x, Inorder(r));
      }
  }

  /** On an ordered tree is_member finds exactly the stored values. */
  lemma {:induction false} MemberIffElement(t: Tree, v: int)
    requires Ordered(t)
    ensures IsMember(t, v) <==> v in Elements(t)
  {
    match t
    case Empty =>
    case Node(l, x, r) =>
      MemberIffElement(l, v);
      MemberIffElement(r, v);
  }

  /** is_member is false on an empty tree and, on an ordered tree, agrees with inorder(). */
  lemma MemberIffInorder(t: Tree, v: int)
    requires Ordered(t)
    ensures t.Empty? ==> !IsMember(t, v)
    ensures IsMember(t, v) <==> v in Inorder(t)
  {
    MemberIffElement(t, v);
    InorderElements(t, v);
  }

  // ---------------------------------------------------------------------
  // postorder() as written, and the traversal it was meant to be

  /** postorder() ends with the root and lists the same values as inorder(). */
  lemma {:induction false} PostorderAsWritten(t: Tree)
    ensures t.Node? ==> |Postorder(t)| == Size(t) && Postorder(t)[Size(t) - 1] == t.value
    ensures t.Node? ==> Postorder(t) == Inorder(t.left) + Inorder(t.right) + [t.value]
    ensures multiset(Postorder(t)) == multiset(Inorder(t))
  {
    SizeIsTraversalLength(t);
  }

  /** A tree on which postorder() as written is not a postorder traversal. */
  lemma PostorderNotPostorder()
    ensures Postorder(Node(Node(Empty, 1, Node(Empty, 2, Empty)), 3, Empty)) == [1, 2, 3]
    ensures IntendedPostorder(Node(Node(Empty, 1, Node(Empty, 2, Empty)), 3, Empty)) == [2, 1, 3]
  {
  }

  /** The traversal bst.py's postorder() documents: children in postorder, then the root. */
  function IntendedPostorder(t: Tree): seq<int>
  {
    match t
    case Empty => []
    case Node(l, x, r) => IntendedPostorder(l) + IntendedPostorder(r) + [x]
  }

  function Mirror(t: Tree): Tree
  {
    match t
    case Empty => Empty
    case Node(l, x, r) => Node(Mirror(r), x, Mirror(l))
  }

  function Reverse(s: seq<int>): seq<int>
  {
    if s == [] then [] else Reverse(s[1..]) + [s[0]]
  }

  lemma {:induction false} ReverseAppend(a: seq<int>, b: seq<int>)
    ensures Reverse(a + b) == Reverse(b) + Reverse(a)
  {
    if a == [] {
      assert a + b == b;
    } else {
      assert (a + b)[1..] == a[1..] + b;
      ReverseAppend(a[1..], b);
    }
  }

  /**
   * The intended postorder is the preorder of the mirrored tree read
   * backwards: the root comes last, after both children in postorder.
   */
  lemma {:induction false} IntendedPostorderIsMirroredPreorder(t: Tree)
    ensures IntendedPostorder(t) == Reverse(Preorder(Mirror(t)))
  {
    match t
    case Empty =>
    case Node(l, x, r) =>
      IntendedPostorderIsMirroredPreorder(l);
      IntendedPostorderIsMirroredPreorder(r);
      var pl, pr := Preorder(Mirror(l)), Preorder(Mirror(r));
      assert Preorder(Mirror(t)) == [x] + pr + pl;
      ReverseAppend([x] + pr, pl);
      ReverseAppend([x], pr);
      assert Reverse([x]) == [x] by { assert [x][1..] == []; }
      assert Reverse(Preorder(Mirror(t))) == Reverse(pl) + (Reverse(pr) + [x]);
  }
}
