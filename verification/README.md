# Binary search tree and AVL tree of lab2-tree

This project models the two tree layers of the lab: class `BST` in
`lab2-tree/src/bst.py` is an unbalanced binary search tree of integers, and class
`AVL` in `lab2-tree/src/avl.py` extends it with AVL rebalancing. In both, an
empty subtree is a real node whose value is `None` and which has no children.

The model has two layers.

- **Value level.** Modules `Trees`, `BstSpec`, `BfsSpec` and `AvlSpec` define
  `datatype Tree = Empty | Node(left, value, right)`. They describe every
  operation as a function on it: the recursive queries, `BST.add`,
  `bfs_order_star`, the four rotations, `balance`, `AVL.add` and `AVL.delete`.
  They also prove what the operations promise.
- **Heap level.** Module `Bst` holds class `BstNode`, a linked node with
  `value: Option<int>` and nullable `left`/`right` fields. Its ghost fields
  `Model` (the abstract tree) and `Repr` (the node objects it owns) are tied to
  the fields by `Valid()`.
  - `BST.add` and the child setters `cons`/`set_lc`/`set_rc` are methods that
    update nodes in place.
  - The queue, counter and pop loops of `bfs_order_star` are methods that
    build a local list and change no node. Each is proved to return the
    value-level function of its input.
  - Module `Avl` holds the rotations, `balance`, `add` and `delete` as methods
    that rewire these nodes and return the new subtree root.
  - Every method that changes nodes is proved against the value-level
    function: its new `Model` is that function of its old `Model`.

`AVL.add` calls `BST.add` on itself. Because its children are `AVL` nodes, the
recursive `add` on a child runs `AVL.add` again. So `balance` runs at every
node on the search path, and it also runs when the value is already present.
`AvlSpec.AvlInsert` and `Avl.Add` model exactly that.

The model follows the code as written:
- `delete` is a stub that returns the tree unchanged. There is no two-child
  deletion.
- The expansion pass of `bfs_order_star` visits `2*i` positions in outer iteration `i`.
- `postorder` lists the children in inorder (see Findings).

## Model

| member | source | states |
|---|---|---|
| Trees.MemberIffInorder | lab2-tree/src/bst.py:19-31 | is_member is false on an empty tree; on a BST-ordered tree it holds exactly when v occurs in inorder() |
| Trees.MemberIffElement | lab2-tree/src/bst.py:19-31 | on a BST-ordered tree the comparison search finds exactly the stored values |
| Trees.SizeIsTraversalLength | lab2-tree/src/bst.py:33-39 | size() equals the length of inorder(), preorder() and postorder() |
| Trees.InorderElements | lab2-tree/src/bst.py:68-75 | inorder() holds exactly the values stored in the tree |
| Trees.HeightBoundsSize | lab2-tree/src/bst.py:42-58 | a non-empty tree has height at least 1; height <= size <= 2^height - 1 |
| Trees.OrderedIffAscending | lab2-tree/src/bst.py:68-75 | the BST ordering holds exactly when inorder() is strictly ascending |
| Trees.PostorderAsWritten | lab2-tree/src/bst.py:77-83 | postorder() as written ends with the root, has size() entries, is inorder(lc) + inorder(rc) + [value], and is a permutation of inorder() |
| Trees.PostorderNotPostorder | lab2-tree/src/bst.py:83 | on the tree 3 with left child 1 whose right child is 2, postorder() as written gives [1, 2, 3] where a postorder traversal gives [2, 1, 3] |
| Trees.IntendedPostorderIsMirroredPreorder | lab2-tree/src/bst.py:77-83 | the documented postorder is the reversed preorder of the mirrored tree, so the root comes after both subtrees |
| BstSpec.InsertElements | lab2-tree/src/bst.py:130-142 | after add(v) the members are the old members and v |
| BstSpec.InsertOrdered | lab2-tree/src/bst.py:130-142 | add(v) keeps the BST ordering, and inorder() stays strictly ascending |
| BstSpec.InsertFinds | lab2-tree/src/bst.py:130-142 | after add(v), is_member(v) holds |
| BstSpec.InsertMemberUnchanged | lab2-tree/src/bst.py:130-142 | adding a value is_member already finds returns the tree unchanged |
| BstSpec.InsertIdempotent | lab2-tree/src/bst.py:130-142 | add(v) twice gives the same tree as add(v) once |
| BstSpec.InsertGrowth | lab2-tree/src/bst.py:135-141 | adding a non-member raises size by exactly one; the height never drops and rises by at most one |
| BfsSpec.ListInsertPlacement | lab2-tree/src/bst.py:121-122 | list.insert makes the list one longer, keeps every entry before the index, puts x at the index (at the end when the index lies past it) and moves every later entry one place right |
| BfsSpec.ExpandKeepsHead | lab2-tree/src/bst.py:117-123 | the expansion pass never shortens the list and never moves its first entry |
| BfsSpec.BfsStarShape | lab2-tree/src/bst.py:85-127 | bfs_order_star() is [] on an empty tree; when it returns, it has at most 2^height - 1 entries, and on a non-empty tree it starts with the root value |
| BfsSpec.DocumentedLevelOrder | lab2-tree/src/bst.py:102-115 | the queue walk over the documented tree lists 10, 5, 15, None, None, None, 20, None, None |
| BfsSpec.DocumentedExpand | lab2-tree/src/bst.py:117-123 | the expansion pass at height 3 pads that list with six None entries |
| BfsSpec.BfsStarExample | lab2-tree/src/bst.py:85-127 | bfs_order_star() of the documented tree is [10, 5, 15, None, None, None, 20] |
| Bst.BstNode.constructor | lab2-tree/src/bst.py:10-17 | a node with no value is an empty tree; a node with a value gets two fresh empty children |
| Bst.BstNode.Init | lab2-tree/src/bst.py:135-137 | rerunning __init__ on an empty node turns it into a leaf holding v with fresh children |
| Bst.BstNode.Cons | lab2-tree/src/bst.py:139-141 | cons(l, r) makes l and r the children, keeps the value, and the node models Node(l, value, r) |
| Bst.BstNode.SetLeft | lab2-tree/src/avl.py:75 | set_lc(n) makes n the left child and keeps the value and right child |
| Bst.BstNode.SetRight | lab2-tree/src/avl.py:74 | set_rc(n) makes n the right child and keeps the value and left child |
| Bst.BstNode.IsMember | lab2-tree/src/bst.py:19-31 | the search over linked nodes agrees with is_member on the modelled tree |
| Bst.BstNode.Size | lab2-tree/src/bst.py:33-39 | the linked count agrees with size of the modelled tree |
| Bst.BstNode.Height | lab2-tree/src/bst.py:42-58 | the linked height agrees with the height of the modelled tree |
| Bst.BstNode.Preorder | lab2-tree/src/bst.py:60-66 | the linked preorder agrees with the modelled tree's preorder |
| Bst.BstNode.Inorder | lab2-tree/src/bst.py:68-75 | the linked inorder agrees with the modelled tree's inorder |
| Bst.BstNode.Postorder | lab2-tree/src/bst.py:77-83 | the linked postorder, as written, agrees with Trees.Postorder |
| Bst.BstNode.Add | lab2-tree/src/bst.py:130-142 | add(v) returns the node itself, stays valid, adds only fresh nodes, and the tree becomes BstSpec.Insert of the old tree |
| Bst.BstNode.Delete | lab2-tree/src/bst.py:144-150 | delete(v) returns the node itself and changes nothing |
| Bst.BstNode.LevelWalk | lab2-tree/src/bst.py:102-115 | the queue loop lists every node object's value, empty nodes as None, in level order |
| Bst.ExpandStars | lab2-tree/src/bst.py:117-123 | the counter loops compute the expansion pass, or the IndexError when arr[counter] lies past the end |
| Bst.VisitStar | lab2-tree/src/bst.py:120-122 | one visit of the inner counter loop performs the expansion step at that position, and the list grows by two exactly when the entry there is None |
| Bst.PopTo | lab2-tree/src/bst.py:124-125 | the pop loop keeps the first n entries |
| Bst.BstNode.BfsOrderStar | lab2-tree/src/bst.py:85-127 | the three loops together compute BfsSpec.BfsStar of the tree |
| Bst.DocumentedScenario | lab2-tree/src/bst.py:90-96 | adding 10, 5, 15, 20 to an empty node and calling bfs_order_star() gives [10, 5, 15, None, None, None, 20] |
| AvlSpec.RotateLeft | lab2-tree/src/avl.py:69-76 | slr keeps the inorder sequence |
| AvlSpec.RotateRight | lab2-tree/src/avl.py:78-85 | srr keeps the inorder sequence |
| AvlSpec.DoubleLeft | lab2-tree/src/avl.py:87-92 | dlr, srr on the right child then slr, keeps the inorder sequence |
| AvlSpec.DoubleRight | lab2-tree/src/avl.py:95-100 | drr, slr on the left child then srr, keeps the inorder sequence |
| AvlSpec.Balance | lab2-tree/src/avl.py:36-67 | balance() keeps the inorder sequence |
| AvlSpec.RotationsPreserve | lab2-tree/src/avl.py:69-100 | each of the four rotations keeps the BST ordering, the member set and the size |
| AvlSpec.DoubleRotationShapes | lab2-tree/src/avl.py:87-100 | dlr and drr put the middle grandchild on top, with the other two nodes as its children |
| AvlSpec.BalanceLeavesBalancedAlone | lab2-tree/src/avl.py:41-44 | balance() returns the tree unchanged when it is empty or the children's heights differ by less than two |
| AvlSpec.SingleRightCase | lab2-tree/src/avl.py:47-50 | the srr case gives an AVL-balanced tree two or three levels above the right child |
| AvlSpec.DoubleRightCase | lab2-tree/src/avl.py:46-53 | the drr case gives an AVL-balanced tree two levels above the right child |
| AvlSpec.SingleLeftCase | lab2-tree/src/avl.py:56-64 | the slr case gives an AVL-balanced tree two or three levels above the left child |
| AvlSpec.DoubleLeftCase | lab2-tree/src/avl.py:59-61 | the dlr case gives an AVL-balanced tree two levels above the left child |
| AvlSpec.BalanceRestores | lab2-tree/src/avl.py:36-67 | on AVL-balanced children whose heights differ by at most two, balance() gives an AVL-balanced tree no lower than the taller child and at most one level above it |
| AvlSpec.AvlInsertInorder | lab2-tree/src/avl.py:19-26 | AVL.add gives the same inorder sequence as BST.add |
| AvlSpec.AvlInsertBalanced | lab2-tree/src/avl.py:19-26 | AVL.add keeps the AVL condition at every node and raises the height by at most one |
| AvlSpec.LeftInsertStep | lab2-tree/src/bst.py:138-139 | one level of AVL.add into the left child leaves a balanced node at most one level higher |
| AvlSpec.RightInsertStep | lab2-tree/src/bst.py:140-141 | one level of AVL.add into the right child leaves a balanced node at most one level higher |
| AvlSpec.AvlInsertCorrect | lab2-tree/src/avl.py:19-26 | AVL.add on an AVL-balanced BST gives an AVL-balanced BST with strictly ascending inorder, members old + {v}, and v a member |
| AvlSpec.AvlInsertMemberUnchanged | lab2-tree/src/avl.py:19-26 | on an AVL-balanced tree, AVL.add of a value already present returns the tree unchanged |
| AvlSpec.AvlInsertIdempotent | lab2-tree/src/avl.py:19-26 | on an AVL-balanced BST, AVL.add(v) twice gives the same tree as AVL.add(v) once |
| AvlSpec.AvlDeleteIdentity | lab2-tree/src/avl.py:28-34 | AVL.delete changes no AVL-balanced tree |
| AvlSpec.AscendingInsertions | lab2-tree/src/avl.py:59-64 | adding 10, 20, 30 gives root 20 with children 10 and 30 (slr case) |
| AvlSpec.ZigZagInsertions | lab2-tree/src/avl.py:47-53 | adding 30, 10, 20 gives root 20 with children 10 and 30 (drr case) |
| AvlSpec.InsertIntoLeaf | lab2-tree/src/avl.py:19-26 | adding a smaller or larger value to a leaf makes it the left or right child, with no rotation |
| AvlSpec.FirstThreeOfFive | lab2-tree/src/avl.py:19-26 | adding 10, 5, 15 gives root 10 with children 5 and 15 |
| AvlSpec.FourthOfFive | lab2-tree/src/avl.py:19-26 | then adding 3 puts it left of 5, with no rotation |
| AvlSpec.FifthOfFive | lab2-tree/src/avl.py:19-26 | then adding 7 puts it right of 5, with no rotation |
| AvlSpec.FiveInsertions | lab2-tree/src/avl.py:19-26 | adding 10, 5, 15, 3, 7 gives inorder [3, 5, 7, 10, 15], height 3 and size 5 |
| Avl.Slr | lab2-tree/src/avl.py:69-76 | slr returns the old right child as the root with the old root as its left child, reuses the same node objects, and the tree becomes RotateLeft of the old tree |
| Avl.Srr | lab2-tree/src/avl.py:78-85 | srr returns the old left child as the root with the old root as its right child, reuses the same node objects, and the tree becomes RotateRight of the old tree |
| Avl.Dlr | lab2-tree/src/avl.py:87-92 | dlr stores srr of the right child and then runs slr; the tree becomes DoubleLeft of the old tree |
| Avl.Drr | lab2-tree/src/avl.py:95-100 | drr stores slr of the left child and then runs srr; the tree becomes DoubleRight of the old tree |
| Avl.Balance | lab2-tree/src/avl.py:36-67 | balance() reuses the same node objects and the tree becomes AvlSpec.Balance of the old tree |
| Avl.Add | lab2-tree/src/avl.py:19-26 | AVL.add adds only fresh nodes and the tree becomes AvlSpec.AvlInsert of the old tree |
| Avl.Delete | lab2-tree/src/avl.py:28-34 | AVL.delete reuses the same node objects and the tree becomes AvlSpec.AvlDelete of the old tree |
| Avl.AscendingScenario | lab2-tree/src/avl.py:19-26 | adding 10, 20, 30 to empty linked AVL nodes gives root 20 with children 10 and 30, inorder [10, 20, 30] and height 2 |

## Left out

- Logging and the `__main__` blocks of both files are left out: they are output and program exit, with no tree logic.
- The base node class `bt.BT` is not part of this model. Its accessors are taken to be plain field reads and writes. `cons`, `set_lc` and `set_rc` are `Bst.BstNode.Cons`, `SetLeft` and `SetRight`. An empty node is taken to have no children.
- Deletion with two children is left out, because `delete` in `bst.py` is a stub that returns the tree unchanged.
- Values are `int`. Python's comparison of other value types, and its type errors, are left out.
- BfsSpec.BfsStarShape: does not prove that the result lists the complete tree of that height. The result is the `IndexError` outcome when `arr[counter]` would raise it; the model does not prove that this never happens. With `2*i` positions in outer iteration `i`, the code does not pad every level in general.
- The AVL height bound in terms of the size (about 1.45 log2 of the size) is not proved. Only the AVL balance condition is proved.
- Bst.BstNode.BfsOrderStar: computes `height()` once, where the source calls it again at each use. The tree does not change in between, so the values are equal.
- Bst.BstNode.BfsOrderStar: its three phases are the separate methods `LevelWalk`, `ExpandStars` and `PopTo`.

## Findings

| source | as written | input that shows it | evidently intended | confidence | as-written member | corrected member |
|---|---|---|---|---|---|---|
| lab2-tree/src/bst.py:83 | postorder() lists both children with inorder() before the root | the tree 3 whose left child 1 has right child 2: gives [1, 2, 3] | both children in postorder before the root: [2, 1, 3] | high; not executed | Trees.PostorderNotPostorder | Trees.IntendedPostorderIsMirroredPreorder |
