/*
 * The recursive AVL tree of BSTree/AVLTree.cpp.
 *
 * Every private helper of the C++ class takes a subtree root and returns the
 * (possibly new) root of that subtree, so the node-level algorithms are pure
 * functions over an algebraic tree whose nodes carry their stored height.
 * The public class, which only owns `root` and reassigns it, is the class
 * AVLRecursive.AVLTree below.
 */
module AvlNodes {
  import opened SortedSeq

  /** A subtree: `Nil` is nullptr, a `Node` carries its stored (cached) height. */
  datatype Tree = Nil | Node(key: int, left: Tree, right: Tree, height: nat)

  // ---------------------------------------------------------------------------
  // Abstract views of a subtree

  /** The set of keys stored in a subtree. */
  function Keys(t: Tree): set<int>
  {
    match t
    case Nil => {}
    case Node(k, l, r, _) => Keys(l) + {k} + Keys(r)
  }

  /** GetVector(node, vec): the keys in in-order (left, node, right). */
  function InOrder(t: Tree): (s: seq<int>)
    ensures forall x :: x in s <==> x in Keys(t)
  {
    match t
    case Nil => []
    case Node(k, l, r, _) => InOrder(l) + [k] + InOrder(r)
  }

  /** Binary-search-tree order: left keys are smaller, right keys larger. */
  ghost predicate IsBST(t: Tree)
  {
    match t
    case Nil => true
    case Node(k, l, r, _) =>
      && (forall x :: x in Keys(l) ==> x < k)
      && (forall x :: x in Keys(r) ==> k < x)
      && IsBST(l) && IsBST(r)
  }

  /** The height a subtree really has, computed from its shape alone. */
  function ShapeHeight(t: Tree): nat
  {
    match t
    case Nil => 0
    case Node(_, l, r, _) => 1 + Max(ShapeHeight(l), ShapeHeight(r))
  }

  // ---------------------------------------------------------------------------
  // Heights and balance (AVLTree.cpp:83-100)

  /** Height(Node*): 0 for nullptr, otherwise the height stored in the node. */
  function Height(t: Tree): nat
  {
    if t.Nil? then 0 else t.height
  }

  /**
   * BalanceFactor: height of the left child minus height of the right
   * child.  The range stated for an AVL node is the last condition of
   * `Avl` at that node, given here for Balance's callers.
   */
  function BalanceFactor(t: Tree): (b: int)
    requires t.Node?
    ensures Avl(t) ==> -1 <= b <= 1
  {
    Height(t.left) - Height(t.right)
  }

  /** The AVL invariant: every stored height is exact and every balance factor lies in [-1, 1]. */
  ghost predicate Avl(t: Tree)
  {
    match t
    case Nil => true
    case Node(_, l, r, h) =>
      && Avl(l) && Avl(r)
      && h == 1 + Max(Height(l), Height(r))
      && -1 <= Height(l) - Height(r) <= 1
  }

  /** FixHeight: the same node with its height refreshed from its children's stored heights. */
  function FixHeight(t: Tree): (r: Tree)
    requires t.Node?
    ensures r.Node? && r.key == t.key && r.left == t.left && r.right == t.right
    ensures Avl(t.left) && Avl(t.right) && -1 <= BalanceFactor(t) <= 1 ==> Avl(r)
    ensures Height(r) > Height(t.left) && Height(r) > Height(t.right)
  {
    t.(height := 1 + Max(Height(t.left), Height(t.right)))
  }

  // ---------------------------------------------------------------------------
  // Rotations (AVLTree.cpp:102-132)

  /** RotateLeft(p): the right child q becomes the subtree root, q's left subtree moves under p. */
  function RotateLeft(p: Tree): (q: Tree)
    requires p.Node? && p.right.Node?
    ensures q.Node? && q.key == p.right.key && q.right == p.right.right
    ensures q.left.Node? && q.left.key == p.key && q.left.left == p.left && q.left.right == p.right.left
    ensures q.left.height == 1 + Max(Height(p.left), Height(p.right.left))
    ensures q.height == 1 + Max(Height(q.left), Height(q.right))
    ensures InOrder(q) == InOrder(p)
  {
    var r := p.right;
    var p' := FixHeight(Node(p.key, p.left, r.left, p.height));
    FixHeight(Node(r.key, p', r.right, r.height))
  }

  /** RotateRight(p): the left child q becomes the subtree root, q's right subtree moves under p. */
  function RotateRight(p: Tree): (q: Tree)
    requires p.Node? && p.left.Node?
    ensures q.Node? && q.key == p.left.key && q.left == p.left.left
    ensures q.right.Node? && q.right.key == p.key && q.right.right == p.right && q.right.left == p.left.right
    ensures q.right.height == 1 + Max(Height(p.left.right), Height(p.right))
    ensures q.height == 1 + Max(Height(q.left), Height(q.right))
    ensures InOrder(q) == InOrder(p)
  {
    var l := p.left;
    var p' := FixHeight(Node(p.key, l.right, p.right, p.height));
    FixHeight(Node(l.key, l.left, p', l.height))
  }

  /** RotateRightLeft(p): rotate p's right child right, then p left. */
  function RotateRightLeft(p: Tree): (q: Tree)
    requires p.Node? && p.right.Node? && p.right.left.Node?
    ensures q.Node? && q.key == p.right.left.key
    ensures InOrder(q) == InOrder(p)
  {
    RotateLeft(p.(right := RotateRight(p.right)))
  }

  /** RotateLeftRight(p): rotate p's left child left, then p right. */
  function RotateLeftRight(p: Tree): (q: Tree)
    requires p.Node? && p.left.Node? && p.left.right.Node?
    ensures q.Node? && q.key == p.left.right.key
    ensures InOrder(q) == InOrder(p)
  {
    RotateRight(p.(left := RotateLeft(p.left)))
  }

  /**
   * Balance(node) (AVLTree.cpp:134-163): refresh the node's height and, when
   * its balance factor is 2 or -2, apply a single rotation if the heavy child
   * leans the same way or is even, and a double rotation otherwise.
   */
  function Balance(t: Tree): (r: Tree)
    requires t.Node?
    ensures r.Node?
    ensures InOrder(r) == InOrder(t)
    ensures Keys(r) == Keys(t)
  {
    var n := FixHeight(t);
    var balance := BalanceFactor(n);
    if balance == 2 then
      if BalanceFactor(n.left) >= 0 then RotateRight(n) else RotateLeftRight(n)
    else if balance == -2 then
      if BalanceFactor(n.right) <= 0 then RotateLeft(n) else RotateRightLeft(n)
    else
      n
  }

  // ---------------------------------------------------------------------------
  // Insert, FindMin, ExcludeMin, Remove (AVLTree.cpp:165-246)

  /** Insert(node, key): descend by comparison, attach a height-1 leaf, balance on the way back. */
  function Insert(t: Tree, key: int): (r: Tree)
    ensures r.Node?
    ensures Keys(r) == Keys(t) + {key}
  {
    match t
    case Nil => Node(key, Nil, Nil, 1)
    case Node(k, l, rt, h) =>
      if key == k then t
      else if key < k then Balance(Node(k, Insert(l, key), rt, h))
      else Balance(Node(k, l, Insert(rt, key), h))
  }

  /** FindMin(node): the leftmost node of a non-empty subtree; its key comes first in in-order. */
  function FindMin(t: Tree): (m: Tree)
    requires t.Node?
    ensures m.Node? && m.left.Nil?
    ensures m.key == InOrder(t)[0]
  {
    if t.left.Nil? then t else FindMin(t.left)
  }

  /** ExcludeMin(node): the subtree without its leftmost node, balanced on the way back. */
  function ExcludeMin(t: Tree): (r: Tree)
    requires t.Node?
    ensures InOrder(r) == InOrder(t)[1..]
  {
    if t.left.Nil? then t.right
    else Balance(t.(left := ExcludeMin(t.left)))
  }

  /**
   * Remove(node, key): descend by comparison; a found node with two children
   * is replaced by the minimum node of its right subtree, which takes over the
   * node's left subtree and the right subtree without that minimum.
   */
  function Remove(t: Tree, key: int): (r: Tree)
    ensures Keys(r) <= Keys(t)
  {
    match t
    case Nil => Nil
    case Node(k, l, rt, h) =>
      if key < k then Balance(Node(k, Remove(l, key), rt, h))
      else if key > k then Balance(Node(k, l, Remove(rt, key), h))
      else if l.Nil? then rt
      else if rt.Nil? then l
      else
        var m := FindMin(rt);
        Balance(Node(m.key, l, ExcludeMin(rt), m.height))
  }

  // ---------------------------------------------------------------------------
  // Order: the tree is a binary search tree exactly when GetVector is ascending

  /** IsBST(t) holds exactly when the in-order sequence GetVector returns is strictly ascending. */
  lemma {:induction false} BstIffAscending(t: Tree)
    ensures IsBST(t) <==> Ascending(InOrder(t))
  {
    match t
    case Nil =>
    case Node(k, l, r, _) =>
      BstIffAscending(l);
      BstIffAscending(r);
      AscendingConcat(InOrder(l), k, InOrder(r));
  }

  lemma KeysFromInOrder(t: Tree)
    ensures Keys(t) == Elems(InOrder(t))
  {
  }

  /** Balance keeps the search order. */
  lemma BalanceBst(t: Tree)
    requires t.Node? && IsBST(t)
    ensures IsBST(Balance(t))
  {
    BstIffAscending(t);
    BstIffAscending(Balance(t));
  }

  /** Insert keeps the search order. */
  lemma {:induction false} InsertBst(t: Tree, key: int)
    requires IsBST(t)
    ensures IsBST(Insert(t, key))
  {
    match t
    case Nil =>
    case Node(k, l, r, h) =>
      if key < k {
        InsertBst(l, key);
        BalanceBst(Node(k, Insert(l, key), r, h));
      } else if key > k {
        InsertBst(r, key);
        BalanceBst(Node(k, l, Insert(r, key), h));
      }
  }

  /** In a search tree, FindMin holds the smallest key. */
  lemma FindMinIsMinimum(t: Tree)
    requires t.Node? && IsBST(t)
    ensures FindMin(t).key in Keys(t)
    ensures forall x :: x in Keys(t) ==> FindMin(t).key <= x
  {
    BstIffAscending(t);
    var s := InOrder(t);
    forall x | x in Keys(t) ensures s[0] <= x {
      var i :| 0 <= i < |s| && s[i] == x;
    }
  }

  /** ExcludeMin removes exactly the minimum key and keeps the search order. */
  lemma ExcludeMinSpec(t: Tree)
    requires t.Node? && IsBST(t)
    ensures IsBST(ExcludeMin(t))
    ensures Keys(ExcludeMin(t)) == Keys(t) - {FindMin(t).key}
  {
    BstIffAscending(t);
    var s := InOrder(t);
    AscendingDrop(s, 0);
    assert s[..0] + s[1..] == s[1..];
    KeysFromInOrder(t);
    KeysFromInOrder(ExcludeMin(t));
    assert Ascending(InOrder(ExcludeMin(t)));
    BstIffAscending(ExcludeMin(t));
  }

  /** On a search tree, Remove deletes exactly `key` and keeps the search order. */
  lemma {:induction false} RemoveBst(t: Tree, key: int)
    requires IsBST(t)
    ensures IsBST(Remove(t, key))
    ensures Keys(Remove(t, key)) == Keys(t) - {key}
  {
    match t
    case Nil =>
    case Node(k, l, r, h) =>
      if key < k {
        RemoveBst(l, key);
        RemoveBstLeft(k, l, r, h, key, Remove(l, key));
      } else if key > k {
        RemoveBst(r, key);
        RemoveBstRight(k, l, r, h, key, Remove(r, key));
      } else if l.Nil? {
      } else if r.Nil? {
      } else {
        ReplaceByMinBst(t);
        var m := FindMin(r);
        BalanceBst(Node(m.key, l, ExcludeMin(r), m.height));
      }
  }

  /** One step of RemoveBst on the way down the left subtree: l' is what removal left of l. */
  lemma RemoveBstLeft(k: int, l: Tree, r: Tree, h: nat, key: int, l': Tree)
    requires IsBST(Node(k, l, r, h)) && key < k
    requires IsBST(l') && Keys(l') == Keys(l) - {key}
    ensures IsBST(Balance(Node(k, l', r, h))) && Keys(Balance(Node(k, l', r, h))) == Keys(Node(k, l, r, h)) - {key}
  {
    var n := Node(k, l', r, h);
    assert IsBST(n) by {
      forall x | x in Keys(l') ensures x < k {
        assert x in Keys(l);
      }
    }
    BalanceBst(n);
    assert key !in Keys(r) && key != k;
  }

  /** One step of RemoveBst on the way down the right subtree: r' is what removal left of r. */
  lemma RemoveBstRight(k: int, l: Tree, r: Tree, h: nat, key: int, r': Tree)
    requires IsBST(Node(k, l, r, h)) && key > k
    requires IsBST(r') && Keys(r') == Keys(r) - {key}
    ensures IsBST(Balance(Node(k, l, r', h))) && Keys(Balance(Node(k, l, r', h))) == Keys(Node(k, l, r, h)) - {key}
  {
    var n := Node(k, l, r', h);
    assert IsBST(n) by {
      forall x | x in Keys(r') ensures k < x {
        assert x in Keys(r);
      }
    }
    BalanceBst(n);
    assert key !in Keys(l) && key != k;
  }

  /** The minimum of the right subtree can take the place of a removed node with two children. */
  lemma ReplaceByMinBst(t: Tree)
    requires t.Node? && t.left.Node? && t.right.Node? && IsBST(t)
    ensures var m := FindMin(t.right);
      var n := Node(m.key, t.left, ExcludeMin(t.right), m.height);
      IsBST(n) && Keys(n) == Keys(t) - {t.key}
  {
    var m := FindMin(t.right);
    FindMinIsMinimum(t.right);
    ExcludeMinSpec(t.right);
    var e := ExcludeMin(t.right);
    assert m.key in Keys(t.right);
    forall x | x in Keys(t.left) ensures x < m.key {
      assert x < t.key;
    }
    forall x | x in Keys(e) ensures m.key < x {
      assert x in Keys(t.right) && x != m.key;
    }
    var n := Node(m.key, t.left, e, m.height);
    assert IsBST(n);
    assert Keys(n) == Keys(t.left) + {m.key} + (Keys(t.right) - {m.key});
  }

  // ---------------------------------------------------------------------------
  // The AVL invariant

  /** A node that already satisfies the AVL invariant is returned unchanged by Balance. */
  lemma BalanceOfAvl(t: Tree)
    requires t.Node? && Avl(t)
    ensures Balance(t) == t
  {
  }

  /** Single right rotation of a node whose left child is two taller and not right-leaning. */
  lemma RotateRightAvl(n: Tree)
    requires n.Node? && n.left.Node? && Avl(n.left) && Avl(n.right)
    requires Height(n.left) == Height(n.right) + 2 && BalanceFactor(n.left) >= 0
    ensures Avl(RotateRight(n))
    ensures Height(n.left) <= Height(RotateRight(n)) <= Height(n.left) + 1
  {
    var q := RotateRight(n);
    assert Avl(q.right);
  }

  /** Single left rotation of a node whose right child is two taller and not left-leaning. */
  lemma RotateLeftAvl(n: Tree)
    requires n.Node? && n.right.Node? && Avl(n.left) && Avl(n.right)
    requires Height(n.right) == Height(n.left) + 2 && BalanceFactor(n.right) <= 0
    ensures Avl(RotateLeft(n))
    ensures Height(n.right) <= Height(RotateLeft(n)) <= Height(n.right) + 1
  {
    var q := RotateLeft(n);
    assert Avl(q.left);
  }

  /** Double rotation of a node whose left child is two taller and right-leaning. */
  lemma RotateLeftRightAvl(n: Tree)
    requires n.Node? && n.left.Node? && Avl(n.left) && Avl(n.right)
    requires Height(n.left) == Height(n.right) + 2 && BalanceFactor(n.left) < 0
    ensures n.left.right.Node?
    ensures Avl(RotateLeftRight(n)) && Height(RotateLeftRight(n)) == Height(n.left)
  {
    var l := n.left;
    var lr := l.right;
    var inner := RotateLeft(l);
    assert inner.left == Node(l.key, l.left, lr.left, 1 + Max(Height(l.left), Height(lr.left)));
    assert Avl(inner.left);
    var q := RotateRight(n.(left := inner));
    assert q.left == inner.left;
    assert q.right == Node(n.key, lr.right, n.right, 1 + Max(Height(lr.right), Height(n.right)));
    assert Avl(q.right);
  }

  /** Double rotation of a node whose right child is two taller and left-leaning. */
  lemma RotateRightLeftAvl(n: Tree)
    requires n.Node? && n.right.Node? && Avl(n.left) && Avl(n.right)
    requires Height(n.right) == Height(n.left) + 2 && BalanceFactor(n.right) > 0
    ensures n.right.left.Node?
    ensures Avl(RotateRightLeft(n)) && Height(RotateRightLeft(n)) == Height(n.right)
  {
    var r := n.right;
    var rl := r.left;
    var inner := RotateRight(r);
    assert inner.right == Node(r.key, rl.right, r.right, 1 + Max(Height(rl.right), Height(r.right)));
    assert Avl(inner.right);
    var q := RotateLeft(n.(right := inner));
    assert q.right == inner.right;
    assert q.left == Node(n.key, n.left, rl.left, 1 + Max(Height(n.left), Height(rl.left)));
    assert Avl(q.left);
  }

  /**
   * Balance restores the AVL invariant at a node whose children are AVL trees
   * whose heights differ by at most 2; the result is at most one taller than
   * the taller child, and exactly one taller when no rotation was needed.
   */
  lemma BalanceAvl(t: Tree)
    requires t.Node? && Avl(t.left) && Avl(t.right)
    requires -2 <= Height(t.left) - Height(t.right) <= 2
    ensures Avl(Balance(t))
    ensures Max(Height(t.left), Height(t.right)) <= Height(Balance(t)) <= 1 + Max(Height(t.left), Height(t.right))
    ensures -1 <= Height(t.left) - Height(t.right) <= 1 ==> Height(Balance(t)) == 1 + Max(Height(t.left), Height(t.right))
  {
    var n := FixHeight(t);
    if BalanceFactor(n) == 2 {
      if BalanceFactor(n.left) >= 0 {
        RotateRightAvl(n);
      } else {
        RotateLeftRightAvl(n);
      }
    } else if BalanceFactor(n) == -2 {
      if BalanceFactor(n.right) <= 0 {
        RotateLeftAvl(n);
      } else {
        RotateRightLeftAvl(n);
      }
    }
  }

  /** Insert keeps the AVL invariant and grows the height by at most one. */
  lemma {:induction false} InsertAvl(t: Tree, key: int)
    requires Avl(t)
    ensures Avl(Insert(t, key))
    ensures Height(t) <= Height(Insert(t, key)) <= Height(t) + 1
  {
    match t
    case Nil =>
    case Node(k, l, r, h) =>
      if key < k {
        InsertAvl(l, key);
        BalanceAvl(Node(k, Insert(l, key), r, h));
      } else if key > k {
        InsertAvl(r, key);
        BalanceAvl(Node(k, l, Insert(r, key), h));
      }
  }

  /**
   * Inserting a key that is already present gives back the same tree: the
   * descent stops at the key and every Balance on the way back finds an AVL node.
   */
  lemma {:induction false} InsertPresent(t: Tree, key: int)
    requires Avl(t) && IsBST(t) && key in Keys(t)
    ensures Insert(t, key) == t
  {
    match t
    case Node(k, l, r, h) =>
      if key < k {
        InsertPresent(l, key);
        BalanceOfAvl(t);
      } else if key > k {
        InsertPresent(r, key);
        BalanceOfAvl(t);
      }
  }

  /** ExcludeMin keeps the AVL invariant and lowers the height by at most one. */
  lemma {:induction false} ExcludeMinAvl(t: Tree)
    requires t.Node? && Avl(t)
    ensures Avl(ExcludeMin(t))
    ensures Height(t) - 1 <= Height(ExcludeMin(t)) <= Height(t)
  {
    if !t.left.Nil? {
      ExcludeMinAvl(t.left);
      BalanceAvl(t.(left := ExcludeMin(t.left)));
    }
  }

  /** Remove keeps the AVL invariant and lowers the height by at most one. */
  lemma {:induction false} RemoveAvl(t: Tree, key: int)
    requires Avl(t)
    ensures Avl(Remove(t, key))
    ensures Height(t) - 1 <= Height(Remove(t, key)) <= Height(t)
  {
    match t
    case Nil =>
    case Node(k, l, r, h) =>
      if key < k {
        RemoveAvl(l, key);
        BalanceAvl(Node(k, Remove(l, key), r, h));
      } else if key > k {
        RemoveAvl(r, key);
        BalanceAvl(Node(k, l, Remove(r, key), h));
      } else if l.Nil? {
      } else if r.Nil? {
      } else {
        var m := FindMin(r);
        ExcludeMinAvl(r);
        BalanceAvl(Node(m.key, l, ExcludeMin(r), m.height));
      }
  }

  /**
   * Removing an absent key gives back the same tree: the descent reaches
   * nullptr and every Balance on the way back finds an AVL node.
   */
  lemma {:induction false} RemoveAbsent(t: Tree, key: int)
    requires Avl(t) && key !in Keys(t)
    ensures Remove(t, key) == t
  {
    match t
    case Nil =>
    case Node(k, l, r, h) =>
      assert key != k && key !in Keys(l) && key !in Keys(r);
      if key < k {
        RemoveAbsent(l, key);
        calc {
          Remove(t, key);
          Balance(Node(k, Remove(l, key), r, h));
          { BalanceOfAvl(t); }
          t;
        }
      } else {
        RemoveAbsent(r, key);
        calc {
          Remove(t, key);
          Balance(Node(k, l, Remove(r, key), h));
          { BalanceOfAvl(t); }
          t;
        }
      }
  }

  /** In an AVL tree the stored height is the real height of the shape. */
  lemma {:induction false} AvlHeightExact(t: Tree)
    requires Avl(t)
    ensures Height(t) == ShapeHeight(t)
  {
    match t
    case Nil =>
    case Node(_, l, r, _) =>
      AvlHeightExact(l);
      AvlHeightExact(r);
  }
}

/** The public class of BSTree/AVLTree.cpp: it owns `root` and reassigns it. */
module AVLRecursive {
  import N = AvlNodes
  import opened SortedSeq

  class AVLTree {
    var root: N.Tree

    /** What every public operation keeps: search order and the AVL invariant. */
    ghost predicate Valid()
      reads this
    {
      N.IsBST(root) && N.Avl(root)
    }

    /** AVLTree(): an empty tree. */
    constructor ()
      ensures Valid() && root == N.Nil
    {
      root := N.Nil;
    }

    /** Insert(key): root := Insert(root, key). */
    method Insert(key: int)
      requires Valid()
      modifies this
      ensures Valid()
      ensures N.Keys(root) == old(N.Keys(root)) + {key}
      ensures key in old(N.Keys(root)) ==> root == old(root)
      ensures old(N.Height(root)) <= N.Height(root) <= old(N.Height(root)) + 1
    {
      N.InsertBst(root, key);
      N.InsertAvl(root, key);
      if key in N.Keys(root) {
        N.InsertPresent(root, key);
      }
      root := N.Insert(root, key);
    }

    /** Remove(key): root := Remove(root, key). */
    method Remove(key: int)
      requires Valid()
      modifies this
      ensures Valid()
      ensures N.Keys(root) == old(N.Keys(root)) - {key}
      ensures key !in old(N.Keys(root)) ==> root == old(root)
      ensures old(N.Height(root)) - 1 <= N.Height(root) <= old(N.Height(root))
    {
      N.RemoveBst(root, key);
      N.RemoveAvl(root, key);
      if key !in N.Keys(root) {
        N.RemoveAbsent(root, key);
      }
      root := N.Remove(root, key);
    }

    /** Find(key) (AVLTree.cpp:44-63): iterative descent until nullptr. */
    method Find(key: int) returns (found: bool)
      requires Valid()
      ensures found <==> key in N.Keys(root)
    {
      var node := root;
      while node.Node?
        invariant N.IsBST(node)
        invariant key in N.Keys(root) <==> key in N.Keys(node)
        decreases node
      {
        if node.key == key {
          return true;
        }
        if key < node.key {
          node := node.left;
        } else {
          node := node.right;
        }
      }
      return false;
    }

    /** Height(): the root's stored height, which is the real height; 0 when empty. */
    method Height() returns (h: nat)
      requires Valid()
      ensures h == N.ShapeHeight(root)
      ensures h == 0 <==> root == N.Nil
    {
      N.AvlHeightExact(root);
      h := N.Height(root);
    }

    /** Clear(): the tree becomes empty. */
    method Clear()
      modifies this
      ensures Valid() && root == N.Nil
    {
      root := N.Nil;
    }

    /** GetVector(): the keys in ascending order, each once. */
    method GetVector() returns (values: seq<int>)
      requires Valid()
      ensures Ascending(values)
      ensures forall x :: x in values <==> x in N.Keys(root)
    {
      N.BstIffAscending(root);
      values := N.InOrder(root);
    }
  }
}
