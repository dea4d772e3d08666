/**
 * BST.bfs_order_star on the value level.
 *
 * The source works in three passes: a breadth-first walk over every node
 * object (an empty node contributes None and has no children to enqueue),
 * an expansion pass that inserts two None entries after position 2c for
 * every None met at position c, for h*(h-1) positions in all (the inner loop
 * runs 2*i times in outer iteration i), and a truncation to 2^h - 1 entries, where h is
 * the height.  Python's list.insert appends when the index lies past the end
 * of the list, and reading arr[counter] past the end raises IndexError, which
 * is the IndexError outcome of Expand.
 */
module BfsSpec {
  import opened Trees

  /** How bfs_order_star ends: it raises IndexError, or it returns the list. */
  datatype Outcome = IndexError | Returned(arr: seq<Option<int>>)

  /** The number of node objects in a tree: each real node owns two children. */
  function NodeCount(t: Tree): nat
  {
    match t
    case Empty => 1
    case Node(l, _, r) => 1 + NodeCount(l) + NodeCount(r)
  }

  /** The number of node objects still to be visited from a queue. */
  function Weight(q: seq<Tree>): nat
  {
    if q == [] then 0 else NodeCount(q[0]) + Weight(q[1..])
  }

  lemma {:induction false} WeightAppend(a: seq<Tree>, b: seq<Tree>)
    ensures Weight(a + b) == Weight(a) + Weight(b)
  {
    if a == [] {
      assert a + b == b;
    } else {
      assert (a + b)[1..] == a[1..] + b;
      WeightAppend(a[1..], b);
    }
  }

  /** Popping a real node and enqueuing its two children leaves one object fewer to visit. */
  lemma WeightPop(q: seq<Tree>)
    requires q != [] && q[0].Node?
    ensures Weight(q[1..] + [q[0].left, q[0].right]) == Weight(q) - 1
  {
    var l, r := q[0].left, q[0].right;
    WeightAppend(q[1..], [l, r]);
    assert [l, r][1..] == [r];
    assert [r][1..] == [];
    assert Weight([r]) == NodeCount(r);
    assert Weight([l, r]) == NodeCount(l) + NodeCount(r);
  }

  /** The first loop: the values of all node objects reachable from the queue, level by level. */
  function LevelOrder(q: seq<Tree>): seq<Option<int>>
    decreases Weight(q)
  {
    if q == [] then []
    else
      match q[0]
      case Empty => [None] + LevelOrder(q[1..])
      case Node(l, x, r) =>
        WeightPop(q);
        [Some(x)] + LevelOrder(q[1..] + [l, r])
  }

  /** Python's list.insert(i, x) for a non-negative index. */
  function ListInsert(s: seq<Option<int>>, i: nat, x: Option<int>): (r: seq<Option<int>>)
    ensures |r| == |s| + 1
    ensures forall k :: 0 <= k < |s| && k < i ==> r[k] == s[k]
  {
    if i <= |s| then s[..i] + [x] + s[i..] else s + [x]
  }

  /**
   * list.insert(i, x) puts x at index i, or at the end when i lies past it,
   * and moves every entry from index i on one place to the right.
   */
  lemma ListInsertPlacement(s: seq<Option<int>>, i: nat, x: Option<int>)
    ensures |ListInsert(s, i, x)| == |s| + 1
    ensures ListInsert(s, i, x)[if i <= |s| then i else |s|] == x
    ensures forall k :: 0 <= k < |s| && k < i ==> ListInsert(s, i, x)[k] == s[k]
    ensures forall k :: i <= k < |s| ==> ListInsert(s, i, x)[k + 1] == s[k]
  {
  }

  /** How many positions the two counter loops visit for height h: the sum of 2*i for i < h. */
  function Steps(h: nat): nat
  {
    if h == 0 then 0 else Steps(h - 1) + 2 * (h - 1)
  }

  /** One visit of the inner loop at position counter. */
  function ExpandAt(arr: seq<Option<int>>, counter: nat): seq<Option<int>>
    requires counter < |arr|
  {
    if arr[counter] == None then ListInsert(ListInsert(arr, 2 * counter + 1, None), 2 * counter + 2, None)
    else arr
  }

  /** The two counter loops from position counter on, steps visits left. */
  function Expand(arr: seq<Option<int>>, counter: nat, steps: nat): Outcome
    decreases steps
  {
    if steps == 0 then Returned(arr)
    else if counter >= |arr| then IndexError
    else Expand(ExpandAt(arr, counter), counter + 1, steps - 1)
  }

  /** One visit of the expansion pass, or the IndexError when the position lies past the end. */
  lemma ExpandOnce(arr: seq<Option<int>>, counter: nat, steps: nat)
    requires steps > 0
    ensures counter < |arr| ==> Expand(arr, counter, steps) == Expand(ExpandAt(arr, counter), counter + 1, steps - 1)
    ensures counter >= |arr| ==> Expand(arr, counter, steps) == IndexError
  {
  }

  /** The final loop: pop from the end until at most n entries are left. */
  function Truncate(s: seq<Option<int>>, n: nat): seq<Option<int>>
  {
    if |s| <= n then s else s[..n]
  }

  /** bfs_order_star(), or the IndexError the expansion pass may raise. */
  function BfsStar(t: Tree): Outcome
  {
    if t.Empty? then Returned([])
    else
      var h := Height(t);
      match Expand(LevelOrder([t]), 0, Steps(h))
      case IndexError => IndexError
      case Returned(arr) => Returned(Truncate(arr, Pow2(h) - 1))
  }

  /** The expansion pass never moves the first entry and never shortens the list. */
  lemma {:induction false} ExpandKeepsHead(arr: seq<Option<int>>, counter: nat, steps: nat)
    requires |arr| >= 1
    ensures Expand(arr, counter, steps).Returned? ==>
      |Expand(arr, counter, steps).arr| >= |arr| &&
      Expand(arr, counter, steps).arr[0] == arr[0]
    decreases steps
  {
    if steps > 0 && counter < |arr| {
      var next := ExpandAt(arr, counter);
      ExpandKeepsHead(next, counter + 1, steps - 1);
    }
  }

  /**
   * bfs_order_star() is [] on an empty tree; otherwise, when it returns, it
   * starts with the root value and has at most 2^height - 1 entries.
   */
  lemma BfsStarShape(t: Tree)
    ensures t.Empty? ==> BfsStar(t) == Returned([])
    ensures BfsStar(t).Returned? ==> |BfsStar(t).arr| <= Pow2(Height(t)) - 1
    ensures t.Node? && BfsStar(t).Returned? ==>
      |BfsStar(t).arr| >= 1 && BfsStar(t).arr[0] == Some(t.value)
  {
    if t.Node? {
      var first := LevelOrder([t]);
      WeightPop([t]);
      assert first == [Some(t.value)] + LevelOrder([t][1..] + [t.left, t.right]);
      ExpandKeepsHead(first, 0, Steps(Height(t)));
      HeightBoundsSize(t);
      PowMonotone(1, Height(t));
    }
  }

  /** The tree drawn in bfs_order_star's documentation: 10 with children 5 and 15, and 20 right of 15. */
  function DocumentedTree(): Tree
  {
    Node(Node(Empty, 5, Empty), 10, Node(Empty, 15, Node(Empty, 20, Empty)))
  }

  lemma DocumentedLevelOrder()
    ensures LevelOrder([DocumentedTree()]) ==
      [Some(10), Some(5), Some(15), None, None, None, Some(20), None, None]
  {
    var leaf5, leaf20 := Node(Empty, 5, Empty), Node(Empty, 20, Empty);
    var right := Node(Empty, 15, leaf20);
    var t := Node(leaf5, 10, right);
    var e := Empty;
    assert LevelOrder([e]) == [None] by {
      assert [e][1..] == [];
    }
    assert LevelOrder([e, e]) == [None, None] by {
      assert [e, e][1..] == [e];
    }
    assert LevelOrder([leaf20]) == [Some(20), None, None] by {
      WeightPop([leaf20]);
      assert [leaf20][1..] + [e, e] == [e, e];
    }
    assert LevelOrder([e, leaf20]) == [None, Some(20), None, None] by {
      assert [e, leaf20][1..] == [leaf20];
    }
    assert LevelOrder([e, e, leaf20]) == [None, None, Some(20), None, None] by {
      assert [e, e, leaf20][1..] == [e, leaf20];
    }
    assert LevelOrder([e, e, e, leaf20]) == [None, None, None, Some(20), None, None] by {
      assert [e, e, e, leaf20][1..] == [e, e, leaf20];
    }
    assert LevelOrder([right, e, e]) == [Some(15), None, None, None, Some(20), None, None] by {
      WeightPop([right, e, e]);
      assert [right, e, e][1..] + [e, leaf20] == [e, e, e, leaf20];
    }
    assert LevelOrder([leaf5, right]) == [Some(5), Some(15), None, None, None, Some(20), None, None] by {
      WeightPop([leaf5, right]);
      assert [leaf5, right][1..] + [e, e] == [right, e, e];
    }
    WeightPop([t]);
    assert [t][1..] + [leaf5, right] == [leaf5, right];
  }

  lemma DocumentedExpand()
    ensures Expand([Some(10), Some(5), Some(15), None, None, None, Some(20), None, None], 0, 6) ==
      Returned([Some(10), Some(5), Some(15), None, None, None, Some(20), None, None, None, None, None, None, None, None])
  {
    var n: Option<int> := None;
    var first := [Some(10), Some(5), Some(15), n, n, n, Some(20), n, n];
    var a3 := [Some(10), Some(5), Some(15), n, n, n, Some(20), n, n, n, n];
    var a4 := [Some(10), Some(5), Some(15), n, n, n, Some(20), n, n, n, n, n, n];
    var a5 := [Some(10), Some(5), Some(15), n, n, n, Some(20), n, n, n, n, n, n, n, n];
    assert ExpandAt(a4, 5) == a5;
    assert Expand(a4, 5, 1) == Returned(a5);
    assert ExpandAt(a3, 4) == a4;
    assert Expand(a3, 4, 2) == Returned(a5);
    assert ExpandAt(first, 3) == a3;
    assert Expand(first, 3, 3) == Returned(a5);
    assert Expand(first, 2, 4) == Returned(a5);
    assert Expand(first, 1, 5) == Returned(a5);
  }

  /** bfs_order_star() on the documented tree is [10, 5, 15, None, None, None, 20]. */
  lemma BfsStarExample()
    ensures BfsStar(DocumentedTree()) ==
      Returned([Some(10), Some(5), Some(15), None, None, None, Some(20)])
  {
    var t := DocumentedTree();
    DocumentedLevelOrder();
    DocumentedExpand();
    assert Height(t) == 3;
    assert Steps(3) == 6;
    assert Pow2(3) - 1 == 7;
    var n: Option<int> := None;
    var a5 := [Some(10), Some(5), Some(15), n, n, n, Some(20), n, n, n, n, n, n, n, n];
    assert Expand(LevelOrder([t]), 0, Steps(Height(t))) == Returned(a5);
    assert Truncate(a5, 7) == [Some(10), Some(5), Some(15), n, n, n, Some(20)];
  }
}
