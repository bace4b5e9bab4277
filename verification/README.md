# BSTree: three self-balancing binary search trees

The repository holds three C++ set-of-`int` trees with the same public
interface: `Insert`, `Remove`, `Find`, `Clear`, `GetVector` (the keys in
in-order) and `Height`.

- `AVLTree` (BSTree/AVLTree.cpp) is an AVL tree written recursively. Every
  private helper takes a subtree root and returns the new root. Nodes cache
  their height.
- `AVLTreeIterative` (BSTree/AVLTreeIterative.cpp) is an AVL tree whose
  nodes carry parent links. Insertion and removal relink nodes in place and
  then rebalance by walking up the parent links.
- `RBTree` (BSTree/RBTree.cpp) is a red-black tree after Cormen et al. It
  uses one shared Black sentinel `nil` for every missing child and for the
  root's parent.

The model has five files:

- `sorted_seq.dfy` (module `SortedSeq`): strictly ascending integer
  sequences and their element sets.
- `avl_tree.dfy`: module `AvlNodes` holds the recursive helpers as pure
  functions over an algebraic `Tree`. Each node carries its stored height.
  The lemmas prove search order, exact key sets, the AVL invariant and
  height bounds. Module `AVLRecursive` holds class `AVLTree`, which owns
  `root` and reassigns it. Its `Find` is the source's while loop.
- `linked_tree.dfy` (module `LinkedTree`): the two pointer-based trees.
  - Their nodes live in an arena `seq<Node<D>>` and every pointer is an
    index into it.
  - Slot 0 is `nullptr` in the iterative AVL tree and the sentinel `nil` in
    the red-black tree.
  - A ghost `Shape` records where each id sits. `WellLinked` says that the
    stored child and parent links are exactly the shape's links.
  - The in-order id sequence of the shape gives the key sequence that
    `GetVector` returns.
  - The module holds the rotations both classes share, the key descent of
    `InsertNode` (`FindParent`), and the lemmas for attaching a leaf and
    for splicing out a node with at most one child.
- `avl_tree_iterative.dfy` (module `AVLIterative`): class
  `AVLTreeIterative` over the arena. Its invariant is: linked, keys
  strictly ascending in in-order, every stored height at least 1.
- `rb_tree.dfy` (module `RedBlack`): class `RBTree` over the arena. Its
  invariant adds the red-black colouring, which is checked through local
  facts at each node against a ghost table `bh` of black heights.
  `LocalColouring` turns these local facts into the textbook properties:
  - no Red node has a Red child;
  - every path from a node to the sentinel passes the same number of Black
    nodes;
  - the sentinel and the root are Black.

  `InsertFixup` and `RemoveFixup` are proved case by case.

## Model

| member | source | states |
|---|---|---|
| SortedSeq.AscendingConcat | BSTree/AVLTree.cpp:259-268 | in-order concatenation `L + [k] + R` is strictly ascending exactly when L and R are and every key of L is below k and every key of R above it |
| SortedSeq.AscendingDrop | BSTree/RBTree.cpp:330-350 | dropping one element of an ascending sequence keeps it ascending and removes exactly that element |
| SortedSeq.Max | BSTree/AVLTree.cpp:94 | std::max: the result is one of the two and at least both |
| AvlNodes.InOrder | BSTree/AVLTree.cpp:259-268 | GetVector(node, vec) lists exactly the keys of the subtree |
| AvlNodes.BalanceFactor | BSTree/AVLTree.cpp:97-100 | in an AVL node the factor lies in [-1, 1] |
| AvlNodes.FixHeight | BSTree/AVLTree.cpp:92-95 | keeps key and children; the new height exceeds both children's; a node with AVL children and a factor in [-1,1] becomes AVL |
| AvlNodes.RotateLeft | BSTree/AVLTree.cpp:102-110 | the right child becomes the root, its left subtree moves under p, both heights are refreshed, the in-order sequence is unchanged |
| AvlNodes.RotateRight | BSTree/AVLTree.cpp:112-120 | mirror of RotateLeft; in-order sequence unchanged |
| AvlNodes.RotateRightLeft | BSTree/AVLTree.cpp:122-126 | the right child's left child becomes the root; in-order sequence unchanged |
| AvlNodes.RotateLeftRight | BSTree/AVLTree.cpp:128-132 | the left child's right child becomes the root; in-order sequence unchanged |
| AvlNodes.Balance | BSTree/AVLTree.cpp:134-163 | returns a node with the same in-order sequence and the same keys |
| AvlNodes.Insert | BSTree/AVLTree.cpp:165-188 | the result is non-empty and its keys are the old keys plus `key` |
| AvlNodes.FindMin | BSTree/AVLTree.cpp:190-197 | returns a node without a left child whose key is the first of the in-order sequence |
| AvlNodes.ExcludeMin | BSTree/AVLTree.cpp:199-207 | the in-order sequence loses exactly its first key |
| AvlNodes.Remove | BSTree/AVLTree.cpp:209-246 | no key is added |
| AvlNodes.BstIffAscending | BSTree/AVLTree.cpp:259-268 | a subtree is a search tree if and only if its in-order sequence is strictly ascending |
| AvlNodes.BalanceBst | BSTree/AVLTree.cpp:134-163 | Balance keeps the search order |
| AvlNodes.InsertBst | BSTree/AVLTree.cpp:165-188 | Insert keeps the search order |
| AvlNodes.FindMinIsMinimum | BSTree/AVLTree.cpp:190-197 | in a search tree FindMin holds the smallest key |
| AvlNodes.ExcludeMinSpec | BSTree/AVLTree.cpp:199-207 | ExcludeMin keeps the search order and removes exactly the minimum key |
| AvlNodes.RemoveBst | BSTree/AVLTree.cpp:209-246 | on a search tree, Remove keeps the search order and removes exactly `key` |
| AvlNodes.RemoveBstLeft | BSTree/AVLTree.cpp:216-219 | the step down the left subtree, rebalanced, removes exactly `key` and keeps the order |
| AvlNodes.RemoveBstRight | BSTree/AVLTree.cpp:220-223 | the step down the right subtree, rebalanced, removes exactly `key` and keeps the order |
| AvlNodes.ReplaceByMinBst | BSTree/AVLTree.cpp:239-242 | the right subtree's minimum, over the left subtree and the right subtree without the minimum, is a search tree with exactly the node's key removed |
| AvlNodes.BalanceOfAvl | BSTree/AVLTree.cpp:134-163 | Balance returns an AVL node unchanged |
| AvlNodes.RotateRightAvl | BSTree/AVLTree.cpp:139-143 | a single right rotation of a left-heavy (+2) node whose left child is not right-leaning gives an AVL tree, at most one taller than the left child |
| AvlNodes.RotateLeftAvl | BSTree/AVLTree.cpp:150-154 | mirror of RotateRightAvl |
| AvlNodes.RotateLeftRightAvl | BSTree/AVLTree.cpp:145-147 | for a right-leaning left child, the inner grandchild exists and the double rotation gives an AVL tree as tall as the left child |
| AvlNodes.RotateRightLeftAvl | BSTree/AVLTree.cpp:156-158 | mirror of RotateLeftRightAvl |
| AvlNodes.BalanceAvl | BSTree/AVLTree.cpp:134-163 | on AVL children whose heights differ by at most 2, Balance gives an AVL tree whose height is the taller child's or one more, and exactly one more when already balanced |
| AvlNodes.InsertAvl | BSTree/AVLTree.cpp:165-188 | Insert keeps the AVL invariant and grows the height by at most one |
| AvlNodes.InsertPresent | BSTree/AVLTree.cpp:173-176 | inserting a key already present returns the same tree |
| AvlNodes.ExcludeMinAvl | BSTree/AVLTree.cpp:199-207 | ExcludeMin keeps the AVL invariant and lowers the height by at most one |
| AvlNodes.RemoveAvl | BSTree/AVLTree.cpp:209-246 | Remove keeps the AVL invariant and lowers the height by at most one |
| AvlNodes.RemoveAbsent | BSTree/AVLTree.cpp:211-223 | removing an absent key returns the same tree |
| AvlNodes.AvlHeightExact | BSTree/AVLTree.cpp:83-90 | in an AVL tree the stored height is the real height |
| AVLRecursive.AVLTree.constructor | BSTree/AVLTree.cpp:19-22 | an empty, valid tree |
| AVLRecursive.AVLTree.Insert | BSTree/AVLTree.cpp:34-37 | keeps search order and AVL; the keys gain `key`; a present key leaves the root unchanged; the height grows by at most one |
| AVLRecursive.AVLTree.Remove | BSTree/AVLTree.cpp:39-42 | keeps search order and AVL; the keys lose `key`; an absent key leaves the root unchanged; the height drops by at most one |
| AVLRecursive.AVLTree.Find | BSTree/AVLTree.cpp:44-63 | the descent answers true exactly when `key` is stored |
| AVLRecursive.AVLTree.Height | BSTree/AVLTree.cpp:29-32 | the root's stored height is the real height, 0 exactly for the empty tree |
| AVLRecursive.AVLTree.Clear | BSTree/AVLTree.cpp:65-69 | the tree becomes empty and stays valid |
| AVLRecursive.AVLTree.GetVector | BSTree/AVLTree.cpp:76-81 | strictly ascending and holding exactly the stored keys |
| LinkedTree.OrderIds | BSTree/AVLTreeIterative.cpp:391-400 | the in-order id sequence holds exactly the ids of the shape |
| LinkedTree.KeySeqElems | BSTree/RBTree.cpp:455-464 | the keys GetVector collects are exactly the keys of the shape's nodes |
| LinkedTree.OrderDistinct | BSTree/RBTree.cpp:455-464 | in a shape with distinct ids, in-order visits each node once |
| LinkedTree.RotateLeftLinks | BSTree/RBTree.cpp:64-99 | the pointer writes of RotateLeft (also AVLTreeIterative.cpp:77-115): the links become those of the left-rotated shape, and the in-order sequence and ids are unchanged; the root changes only when p was the root |
| LinkedTree.RotateRightLinks | BSTree/RBTree.cpp:101-136 | the pointer writes of RotateRight (also AVLTreeIterative.cpp:117-155), mirror of RotateLeftLinks |
| LinkedTree.RotateLeftProof | BSTree/RBTree.cpp:64-99 | any arena written as LeftRotated describes the rotated shape, with the same in-order sequence |
| LinkedTree.RotateRightProof | BSTree/RBTree.cpp:101-136 | mirror of RotateLeftProof |
| LinkedTree.Descend | BSTree/RBTree.cpp:269-290 | one step of a key search: the key is stored exactly when it is the node's key, or smaller and in the left subtree, or larger and in the right subtree |
| LinkedTree.FindParent | BSTree/RBTree.cpp:150-170 | the key descent of InsertNode (also AVLTreeIterative.cpp:295-313): it reports a present key; otherwise it returns the last node visited (0 exactly for the empty tree), whose child slot on the key's side is empty, and where attaching gives InsertAt's shape |
| LinkedTree.InsertAtIds | BSTree/RBTree.cpp:172-190 | attaching a new leaf adds exactly its id and keeps ids distinct |
| LinkedTree.InsertAtKeys | BSTree/RBTree.cpp:172-190 | attaching an absent key where the descent ends keeps the keys ascending and adds exactly that key |
| LinkedTree.AttachLinked | BSTree/RBTree.cpp:173-190 | the writes `node->parent = parent` and `parent->left/right = node` link the arena as InsertAt's shape; the root is the new node exactly when the tree was empty |
| LinkedTree.LeftmostFacts | BSTree/RBTree.cpp:292-299 | the leftmost node is in the tree, has no left child and comes first in in-order |
| LinkedTree.SuccessorOrder | BSTree/RBTree.cpp:324-328 | the minimum of a node's right subtree is its in-order successor |
| LinkedTree.SpliceLinked | BSTree/RBTree.cpp:330-346 | the writes that let y's only child x take y's place (also AVLTreeIterative.cpp:357-376) link the arena as the shape without y; the root changes to x exactly when y was the root |
| LinkedTree.SpliceOrder | BSTree/RBTree.cpp:330-346 | cutting out y removes exactly y from the in-order sequence |
| LinkedTree.RemoveKeys | BSTree/RBTree.cpp:314-350 | cutting out y (z, or z's successor whose key is copied into z) keeps the keys ascending and removes exactly z's key |
| AVLIterative.AVLTreeIterative.constructor | BSTree/AVLTreeIterative.cpp:20-23 | an empty, valid tree |
| AVLIterative.HeightOf | BSTree/AVLTreeIterative.cpp:58-65 | with every stored height positive, 0 exactly for nullptr |
| AVLIterative.BalanceFactor | BSTree/AVLTreeIterative.cpp:72-75 | 0 exactly when both children store the same height, positive exactly when the left one is taller |
| AVLIterative.Refreshed | BSTree/AVLTreeIterative.cpp:67-70 | only p's stored height changes, to one more than its taller child's, above both; heights stay positive |
| AVLIterative.AVLTreeIterative.FixHeight | BSTree/AVLTreeIterative.cpp:67-70 | only p's stored height changes, to one more than its taller child's |
| AVLIterative.AVLTreeIterative.RotateLeft | BSTree/AVLTreeIterative.cpp:77-115 | the links of the left-rotated shape, then p's and its new parent's heights refreshed; contents unchanged; the root changes only when p was the root |
| AVLIterative.AVLTreeIterative.RotateRight | BSTree/AVLTreeIterative.cpp:117-155 | mirror of RotateLeft |
| AVLIterative.AVLTreeIterative.RotateRightLeft | BSTree/AVLTreeIterative.cpp:157-161 | the exact arena: RotateRight's link writes at c = p.right with c's and g = c.left's heights refreshed, then RotateLeft's at p with p's and g's refreshed; every other height unchanged; contents unchanged; p's new parent hangs under p's old parent |
| AVLIterative.AVLTreeIterative.RotateLeftRight | BSTree/AVLTreeIterative.cpp:163-167 | mirror of RotateRightLeft: the exact arena, with only p's, c = p.left's and g = c.right's heights refreshed |
| AVLIterative.DoubleRotationHeights | BSTree/AVLTreeIterative.cpp:157-167 | a double rotation changes no stored height except those of p, its child c and c's inner child g |
| AVLIterative.AVLTreeIterative.InsertBalance | BSTree/AVLTreeIterative.cpp:169-205 | the walk up keeps the tree valid, its contents and its ids |
| AVLIterative.AVLTreeIterative.RemoveBalance | BSTree/AVLTreeIterative.cpp:207-255 | the walk up keeps the tree valid, its contents and its ids; at a start node whose factor is 0 it changes nothing |
| AVLIterative.AVLTreeIterative.RemoveRotate | BSTree/AVLTreeIterative.cpp:217-252 | the rotation step of RemoveBalance keeps contents and ids; unless it stops, the walk continues from the top of the rotated subtree |
| AVLIterative.AVLTreeIterative.FindNode | BSTree/AVLTreeIterative.cpp:257-276 | returns 0 (nullptr) exactly when the key is absent, and otherwise the node holding it |
| AVLIterative.AVLTreeIterative.FindMin | BSTree/AVLTreeIterative.cpp:278-285 | the leftmost node of the subtree, with the subtree's smallest key |
| AVLIterative.AVLTreeIterative.InsertNode | BSTree/AVLTreeIterative.cpp:287-330 | the tree stays valid and gains `key`; a present key leaves it unchanged |
| AVLIterative.AVLTreeIterative.RemoveNode | BSTree/AVLTreeIterative.cpp:332-389 | the tree stays valid and loses `key`; an absent key leaves it unchanged |
| AVLIterative.AVLTreeIterative.Exclude | BSTree/AVLTreeIterative.cpp:341-381 | cutting out y and copying its key into z removes exactly z's key and the id y; z gets y's key, no other key and no height changes |
| AVLIterative.AVLTreeIterative.Splice | BSTree/AVLTreeIterative.cpp:357-376 | y is cut out: the shape without y, keys and heights untouched |
| AVLIterative.AVLTreeIterative.Insert | BSTree/AVLTreeIterative.cpp:30-33 | as InsertNode |
| AVLIterative.AVLTreeIterative.Remove | BSTree/AVLTreeIterative.cpp:35-38 | as RemoveNode |
| AVLIterative.AVLTreeIterative.Find | BSTree/AVLTreeIterative.cpp:40-43 | true exactly when `key` is stored |
| AVLIterative.AVLTreeIterative.Clear | BSTree/AVLTreeIterative.cpp:45-49 | the tree becomes empty and stays valid; the arena is cut back to slot 0 (nullptr) |
| AVLIterative.AVLTreeIterative.GetVector | BSTree/AVLTreeIterative.cpp:51-56 | the in-order keys, strictly ascending |
| AVLIterative.AVLTreeIterative.CollectKeys | BSTree/AVLTreeIterative.cpp:391-400 | appends the subtree's in-order keys to `vec` |
| AVLIterative.AVLTreeIterative.Height | BSTree/AVLTreeIterative.cpp:402-405 | the root's stored height, 0 exactly for the empty tree |
| AVLIterative.StaleHeight | BSTree/AVLTreeIterative.cpp:207-216 | removing the left leaf under a root of height 2 leaves a valid tree holding [2] whose childless root still stores height 2 |
| RedBlack.LocalColouring | BSTree/RBTree.cpp:195-267 | the local facts at every node give no Red-Red link and equal black heights on all paths, and the table's entry for the top is its real black height |
| RedBlack.RedBlackStateProperties | BSTree/RBTree.cpp:195-267 | the class invariant implies the red-black properties of the whole tree |
| RedBlack.Paint | BSTree/RBTree.cpp:208-210 | a colour write changes the colour of exactly one slot |
| RedBlack.InsertCase1 | BSTree/RBTree.cpp:208-213 | Red parent and Red uncle: painting parent and uncle Black and the grandparent Red keeps the local facts, with the grandparent as the new exception |
| RedBlack.InsertCase2Left | BSTree/RBTree.cpp:216-224 | a right child under a left parent: rotating the parent left keeps the local facts, with the old parent as the new exception |
| RedBlack.InsertCase3Left | BSTree/RBTree.cpp:226-229 | parent Black, grandparent Red, grandparent rotated right: no exception is left |
| RedBlack.InsertCase2Right | BSTree/RBTree.cpp:247-255 | mirror of InsertCase2Left |
| RedBlack.InsertCase3Right | BSTree/RBTree.cpp:257-260 | mirror of InsertCase3Left |
| RedBlack.AttachColouring | BSTree/RBTree.cpp:37-46 | a Red leaf of black height 1 in the slot where the sentinel was keeps the local facts; only the leaf may be a Red child of a Red node |
| RedBlack.FixupDone | BSTree/RBTree.cpp:265-266 | once the node's parent is Black, painting the root Black leaves no exception |
| RedBlack.InsertLeaf | BSTree/RBTree.cpp:172-192 | InsertNode's new leaf puts the tree in the state InsertFixup starts from, with exactly the new key added |
| RedBlack.InsertStep1 | BSTree/RBTree.cpp:208-213 | case 1 on the whole tree: the fixup state moves to the grandparent, strictly higher, keys unchanged |
| RedBlack.InsertStep2Left | BSTree/RBTree.cpp:216-224 | case 2 on the whole tree: the fixup state moves to the old parent, now a left child of a left child |
| RedBlack.InsertStep2Right | BSTree/RBTree.cpp:247-255 | mirror of InsertStep2Left |
| RedBlack.InsertStep3Left | BSTree/RBTree.cpp:226-229 | case 3 on the whole tree: the node's parent is Black afterwards, which ends the loop |
| RedBlack.InsertStep3Right | BSTree/RBTree.cpp:257-260 | mirror of InsertStep3Left |
| RedBlack.InsertDone | BSTree/RBTree.cpp:265-266 | the final root write gives a red-black tree with the same keys |
| RedBlack.RemoveCase1Left | BSTree/RBTree.cpp:370-376 | Red sibling: painting it Black and the parent Red and rotating the parent left keeps the removal colouring; the new sibling is Black |
| RedBlack.RemoveCase2 | BSTree/RBTree.cpp:378-382 | Black sibling with Black children: painting it Red moves the missing black to the parent (both sides, also 414-418) |
| RedBlack.RemoveCase3Left | BSTree/RBTree.cpp:386-392 | near nephew Red, far nephew Black: after the recolouring and the right rotation of the sibling, the new sibling is Black with a Red far child |
| RedBlack.RemoveCase4Left | BSTree/RBTree.cpp:394-397 | far nephew Red: the recolouring and the left rotation of the parent restore the red-black facts everywhere |
| RedBlack.RemoveCase1Right | BSTree/RBTree.cpp:406-412 | mirror of RemoveCase1Left |
| RedBlack.RemoveCase3Right | BSTree/RBTree.cpp:422-428 | mirror of RemoveCase3Left |
| RedBlack.RemoveCase4Right | BSTree/RBTree.cpp:430-433 | mirror of RemoveCase4Left |
| RedBlack.CutBlack | BSTree/RBTree.cpp:330-355 | cutting out a Black node y leaves one black missing on the path through its child x, which is what RemoveFixup starts from |
| RedBlack.CutRed | BSTree/RBTree.cpp:330-355 | cutting out a Red node keeps the red-black facts, so no fixup is needed |
| RedBlack.KeyCopied | BSTree/RBTree.cpp:347-350 | copying y's key into z changes no link and no colour, and keeps the fixup state |
| RedBlack.RemoveStep1Left | BSTree/RBTree.cpp:370-376 | case 1 on the whole tree: x keeps its parent, which is now Red, with a Black sibling |
| RedBlack.RemoveStep1Right | BSTree/RBTree.cpp:406-412 | mirror of RemoveStep1Left |
| RedBlack.RemoveStep2 | BSTree/RBTree.cpp:378-382 | case 2 on the whole tree: the fixup moves to the parent and its measure decreases |
| RedBlack.RemoveStep3Left | BSTree/RBTree.cpp:386-392 | case 3 on the whole tree: x keeps its parent, and the new sibling is Black with a Red far child |
| RedBlack.RemoveStep3Right | BSTree/RBTree.cpp:422-428 | mirror of RemoveStep3Left |
| RedBlack.RemoveStep4Left | BSTree/RBTree.cpp:394-398 | case 4 on the whole tree: a red-black tree, and the loop ends at the root |
| RedBlack.RemoveStep4Right | BSTree/RBTree.cpp:430-434 | mirror of RemoveStep4Left |
| RedBlack.RemoveFinish | BSTree/RBTree.cpp:440 | painting the final node Black ends the missing black: the red-black facts hold everywhere |
| RedBlack.RemoveDone | BSTree/RBTree.cpp:440 | after the loop, the final write gives a red-black tree with the same keys |
| RedBlack.RBTree.constructor | BSTree/RBTree.cpp:23-30 | an empty, valid tree whose only slot is the Black sentinel |
| RedBlack.RBTree.NewNode | BSTree/RBTree.cpp:37-46 | a new Red node with sentinel children and parent is appended; nothing else changes |
| RedBlack.RBTree.RotateLeft | BSTree/RBTree.cpp:64-99 | the links of the left-rotated shape; colours, keys and contents unchanged |
| RedBlack.RBTree.RotateRight | BSTree/RBTree.cpp:101-136 | mirror of RotateLeft |
| RedBlack.RBTree.Insert | BSTree/RBTree.cpp:138-146 | a valid red-black tree that gains `key`; a present key leaves it unchanged |
| RedBlack.RBTree.InsertNode | BSTree/RBTree.cpp:148-193 | a present key gives nullptr (0) and no change; otherwise the new Red leaf sits where the descent ended, and the tree is in the state InsertFixup starts from with exactly `key` added |
| RedBlack.RBTree.InsertFixup | BSTree/RBTree.cpp:195-267 | from the insertion state, the loop ends in a valid red-black tree with the same contents |
| RedBlack.RBTree.InsertRecolour | BSTree/RBTree.cpp:208-213 | case 1: the fixup node moves up to the grandparent |
| RedBlack.RBTree.InsertRotateLeftSide | BSTree/RBTree.cpp:214-230 | cases 2 and 3 with the parent a left child: afterwards the node's parent is Black |
| RedBlack.RBTree.InsertOuterLeft | BSTree/RBTree.cpp:226-229 | case 3 with the parent a left child: afterwards the node's parent is Black |
| RedBlack.RBTree.InsertRotateRightSide | BSTree/RBTree.cpp:245-261 | mirror of InsertRotateLeftSide |
| RedBlack.RBTree.InsertOuterRight | BSTree/RBTree.cpp:257-260 | mirror of InsertOuterLeft |
| RedBlack.RBTree.Remove | BSTree/RBTree.cpp:301-304 | a valid red-black tree that loses `key`; an absent key leaves it unchanged |
| RedBlack.RBTree.RemoveNode | BSTree/RBTree.cpp:306-358 | a valid red-black tree that loses `key`; an absent key leaves it unchanged |
| RedBlack.RBTree.Exclude | BSTree/RBTree.cpp:314-350 | cutting out y and copying its key into z: exactly z's key and the id y are removed; a Black y leaves the state RemoveFixup starts from, a Red y a valid tree |
| RedBlack.RBTree.Splice | BSTree/RBTree.cpp:330-346 | x takes y's place (the sentinel's parent link may be written); keys and colours unchanged |
| RedBlack.RBTree.RemoveFixup | BSTree/RBTree.cpp:360-442 | from the removal state, the loop ends in a valid red-black tree with the same contents |
| RedBlack.RBTree.RemoveFixupLeft | BSTree/RBTree.cpp:366-401 | one pass with x a left child keeps the removal state and lowers the loop measure |
| RedBlack.RBTree.RemoveFixupRight | BSTree/RBTree.cpp:402-437 | mirror of RemoveFixupLeft |
| RedBlack.RBTree.SiblingRedLeft | BSTree/RBTree.cpp:370-376 | case 1: x's parent becomes Red with a Black sibling |
| RedBlack.RBTree.SiblingRedRight | BSTree/RBTree.cpp:406-412 | mirror of SiblingRedLeft |
| RedBlack.RBTree.SiblingRecolour | BSTree/RBTree.cpp:378-382 | case 2: the fixup moves to x's parent and the measure decreases |
| RedBlack.RBTree.BlackSiblingLeft | BSTree/RBTree.cpp:378-400 | cases 2 to 4 with x a left child: the measure decreases, and reaches 0 when the parent was Red |
| RedBlack.RBTree.BlackSiblingRight | BSTree/RBTree.cpp:414-436 | mirror of BlackSiblingLeft |
| RedBlack.RBTree.NearNephewLeft | BSTree/RBTree.cpp:386-392 | case 3: the new sibling is Black with a Red far child |
| RedBlack.RBTree.NearNephewRight | BSTree/RBTree.cpp:422-428 | mirror of NearNephewLeft |
| RedBlack.RBTree.FarNephewLeft | BSTree/RBTree.cpp:394-399 | case 4: the tree is a valid red-black tree and the fixup node is the root |
| RedBlack.RBTree.FarNephewRight | BSTree/RBTree.cpp:430-435 | mirror of FarNephewLeft |
| RedBlack.RBTree.FindNode | BSTree/RBTree.cpp:269-290 | returns the sentinel (0) exactly when the key is absent, and otherwise the node holding it |
| RedBlack.RBTree.FindMin | BSTree/RBTree.cpp:292-299 | the leftmost node of the subtree, with the subtree's smallest key |
| RedBlack.RBTree.Find | BSTree/RBTree.cpp:444-447 | true exactly when `key` is stored |
| RedBlack.RBTree.Clear | BSTree/RBTree.cpp:449-453 | the tree becomes empty (the root is the sentinel) and stays valid; the arena is cut back to the sentinel |
| RedBlack.RBTree.GetVector | BSTree/RBTree.cpp:466-471 | the in-order keys, strictly ascending |
| RedBlack.RBTree.CollectKeys | BSTree/RBTree.cpp:455-464 | appends the subtree's in-order keys to `vec` |
| RedBlack.RBTree.Height | BSTree/RBTree.cpp:473-476 | the number of levels plus one for the sentinel's level; 1 exactly for the empty tree |
| RedBlack.RBTree.HeightAt | BSTree/RBTree.cpp:478-486 | the subtree's number of levels plus one |

## Left out

- BSTree/main.cpp, the demo driver and its random test loop, is not part of this model. Neither are the `Print` methods (console output).
- Destructors, `DeleteNode`, `DeleteNodesRecursively` and `delete` are left out: memory reclamation. Removal never shrinks an arena: cut-out slots stay behind, outside the shape. `Clear` of both arena trees cuts the arena back to slot 0 (nullptr in the iterative AVL tree, the sentinel in the red-black tree).
- The `unsigned char` heights of both AVL trees are unbounded `nat`s here. A stored height of 256 needs a tree of height 256, and the smallest AVL-balanced tree of that height has N(256) nodes, where N(h) = N(h-1) + N(h-2) + 1: about 2^178. For the recursive tree, whose AVL invariant is proved, the wrap is therefore out of reach. For the iterative tree the `nat` heights rely on the tree staying balanced, which this model does not prove (see RemoveBalance below); a tree whose heights have gone stale has no such bound.
- `assert` calls in the source become facts proved about the model, not runtime checks.
- AVLIterative.AVLTreeIterative.RemoveBalance: stored heights are not proved exact. The contracts cover order, links and contents, not the AVL invariant. As written (AVLTreeIterative.cpp:211-216), RemoveBalance stops at a factor of 0 before refreshing the height and goes on at ±1. This is the opposite of what a removal needs. Heights can therefore go stale, so no height invariant holds for this class. `AVLIterative.StaleHeight` exhibits one such tree: after the removal its childless root still stores height 2.
- AVLIterative.AVLTreeIterative.InsertBalance: with stale heights, a double rotation can be asked of a child without an inner child. There the source fails its assertion or dereferences nullptr. The model returns `ok == false` and stops the walk. The source's InsertNode returns `void`, and the model's InsertNode passes this flag on.
- AVLIterative.AVLTreeIterative.InsertBalance and RemoveBalance: the contracts state that the walk keeps validity, contents and ids. They do not state which rotations it picks or where it stops; the bodies follow the source branch by branch.
- AVLIterative.AVLTreeIterative.RemoveBalance: the tests for balance 2 and -2 are an `if`/`else if` where the source has two `if`s. They are exclusive because `balance` is not re-read.
- Helper members that are not in the source split long source functions into cases so that each proof stays small:
  - `FindParent` is the inline descent loop of both InsertNodes;
  - `RemoveRotate` and `Exclude`/`Splice` (both classes) are parts of RemoveBalance and RemoveNode;
  - `InsertRecolour`, `InsertRotateLeftSide`/`RightSide` and `InsertOuterLeft`/`Right` are the cases of InsertFixup;
  - `RemoveFixupLeft`/`Right`, `SiblingRed*`, `BlackSibling*`, `SiblingRecolour`, `NearNephew*` and `FarNephew*` are the cases of RemoveFixup;
  - `CollectKeys` is GetVector(node, vec), and `HeightAt` is Height(Node*).
  - `CutLinks` holds the pointer writes of the red-black RemoveNode splice. The lemmas `InsertColours1`, `RemoveCase2Sites`/`Other`, `Raise`, `Lower` and `AnyException` break the colouring proofs into per-site steps.
- RedBlack.RBTree.InsertNode: returns 0 where the source returns `nullptr`. Slot 0 is the sentinel, and InsertNode never returns it otherwise.
- RedBlack.RBTree.Height: `nil`'s children are `nullptr` in the source and are not stored here. Height counts the sentinel as one level, as the source does.
- RedBlack.RBTree.FarNephewLeft/FarNephewRight: case 4's three colour writes are followed by ghost bookkeeping of the black-height table. The table is a proof device, not source state.
