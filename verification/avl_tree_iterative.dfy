/**
 * The iterative AVL tree (BSTree/AVLTreeIterative.cpp).  Nodes carry parent
 * links and are relinked in place; after an insertion or removal the tree
 * is rebalanced by walking up the parent links.  The nodes live in an
 * arena whose slot 0 stands for nullptr; the ghost shape says where each
 * node sits, and the key sequence of the shape is what GetVector returns.
 */
module AVLIterative {
  import opened SortedSeq
  import opened LinkedTree

  /** Height(Node*): 0 for nullptr, otherwise the height stored in the node. */
  function HeightOf(a: seq<Node<nat>>, id: nat): (h: nat)
    ensures HeightsPositive(a) ==> (h == 0 <==> !(0 < id < |a|))
  {
    if 0 < id < |a| then a[id].data else 0
  }

  /** BalanceFactor(Node*): stored height of the left child minus that of the right child. */
  function BalanceFactor(a: seq<Node<nat>>, id: nat): (b: int)
    requires id < |a|
    ensures b == 0 <==> HeightOf(a, a[id].left) == HeightOf(a, a[id].right)
    ensures b > 0 <==> HeightOf(a, a[id].left) > HeightOf(a, a[id].right)
  {
    HeightOf(a, a[id].left) - HeightOf(a, a[id].right)
  }

  /** The arena after FixHeight(p): p's stored height is one more than its taller child's. */
  function Refreshed(a: seq<Node<nat>>, p: nat): (r: seq<Node<nat>>)
    requires p < |a|
    ensures |r| == |a| && SameLinks(r[p], a[p]) && r[p].key == a[p].key
    ensures forall i :: 0 <= i < |a| && i != p ==> r[i] == a[i]
    ensures r[p].data > HeightOf(a, a[p].left) && r[p].data > HeightOf(a, a[p].right)
    ensures r[p].data == HeightOf(a, a[p].left) + 1 || r[p].data == HeightOf(a, a[p].right) + 1
    ensures HeightsPositive(a) ==> HeightsPositive(r)
  {
    a[p := a[p].(data := Max(HeightOf(a, a[p].left), HeightOf(a, a[p].right)) + 1)]
  }

  /**
   * A double rotation refreshes the heights of p, its child c and c's
   * inner child g only: the link writes of both rotations keep every
   * height, and each refresh changes one slot's.
   */
  lemma DoubleRotationHeights(a: seq<Node<nat>>, l1: seq<Node<nat>>, mid: seq<Node<nat>>, l2: seq<Node<nat>>,
                              b: seq<Node<nat>>, p: nat, c: nat, g: nat)
    requires RightRotated(a, l1, c) || LeftRotated(a, l1, c)
    requires c < |l1| && g < |l1| && mid == Refreshed(Refreshed(l1, c), g)
    requires LeftRotated(mid, l2, p) || RightRotated(mid, l2, p)
    requires p < |l2| && b == Refreshed(Refreshed(l2, p), g)
    ensures |b| == |a|
    ensures forall j :: 0 <= j < |a| && j != p && j != c && j != g ==> b[j].data == a[j].data
  {
    RotatedFields(a, l1, c);
    RotatedFields(mid, l2, p);
  }

  /** Every slot other than nullptr stores a height of at least 1. */
  ghost predicate HeightsPositive(a: seq<Node<nat>>)
  {
    forall i :: 0 < i < |a| ==> a[i].data >= 1
  }

  class AVLTreeIterative {
    /** The node slots; slot 0 stands for nullptr and is never part of the tree. */
    var nodes: seq<Node<nat>>
    var root: nat
    /** Where each node sits. */
    ghost var shape: Shape

    ghost predicate Valid()
      reads this
    {
      && |nodes| >= 1
      && WellLinked(nodes, shape) && root == Root(shape)
      && Ascending(KeySeq(nodes, shape))
      && HeightsPositive(nodes)
    }

    /** The keys in in-order: what GetVector returns. */
    ghost function Contents(): seq<int>
      reads this
    {
      KeySeq(nodes, shape)
    }

    constructor ()
      ensures Valid() && Contents() == []
    {
      nodes := [Node(0, 0, 0, 0, 0)];
      root := 0;
      shape := Nil;
    }

    method FixHeight(p: nat)
      requires Valid() && p in Ids(shape)
      modifies this
      ensures Valid() && shape == old(shape) && root == old(root) && Contents() == old(Contents())
      ensures p < |old(nodes)| && nodes == Refreshed(old(nodes), p)
    {
      LinkedBounds(nodes, shape, 0);
      ghost var a := nodes;
      nodes := nodes[p := nodes[p].(data := Max(HeightOf(nodes, nodes[p].left), HeightOf(nodes, nodes[p].right)) + 1)];
      DataChanged(a, nodes, shape);
    }

    /**
     * RotateLeft(p): the links are rewritten as LeftRotated describes, then
     * the heights of p and of q = p.right are refreshed, in that order.
     */
    method RotateLeft(p: nat) returns (ghost links: seq<Node<nat>>)
      requires Valid() && p in Ids(shape) && p < |nodes| && nodes[p].right != 0
      modifies this
      ensures LeftRotated(old(nodes), links, p)
      ensures nodes == Refreshed(Refreshed(links, p), old(nodes[p].right))
      ensures shape == RotateLeftShape(old(shape), p) && Ids(shape) == old(Ids(shape))
      ensures root == (if old(nodes[p].parent) == 0 then old(nodes[p].right) else old(root))
      ensures Valid() && Contents() == old(Contents())
      ensures old(nodes[p].parent) != 0 ==> Depth(shape, old(nodes[p].parent)) == old(Depth(shape, nodes[p].parent))
      ensures nodes[p].parent == old(nodes[p].right) && nodes[old(nodes[p].right)].parent == old(nodes[p].parent)
    {
      var q := nodes[p].right;
      ghost var t := shape;
      RotationSites(nodes, shape, p, q);
      if nodes[p].parent != 0 { ParentLinks(nodes, shape, p); }
      var b, r := RotateLeftLinks(nodes, root, shape, p);
      RotatedKeys(nodes, b, t, p, RotateLeftShape(t, p));
      RotatedFields(nodes, b, p);
      links := b;
      SubFacts(t, p);
      if nodes[p].parent != 0 {
        DepthOutside(t, p, RotLeftAt(Sub(t, p)), nodes[p].parent);
      }
      nodes, root, shape := b, r, RotateLeftShape(t, p);
      FixHeight(p);
      FixHeight(q);
    }

    /** The mirror image of RotateLeft. */
    method RotateRight(p: nat) returns (ghost links: seq<Node<nat>>)
      requires Valid() && p in Ids(shape) && p < |nodes| && nodes[p].left != 0
      modifies this
      ensures RightRotated(old(nodes), links, p)
      ensures nodes == Refreshed(Refreshed(links, p), old(nodes[p].left))
      ensures shape == RotateRightShape(old(shape), p) && Ids(shape) == old(Ids(shape))
      ensures root == (if old(nodes[p].parent) == 0 then old(nodes[p].left) else old(root))
      ensures Valid() && Contents() == old(Contents())
      ensures old(nodes[p].parent) != 0 ==> Depth(shape, old(nodes[p].parent)) == old(Depth(shape, nodes[p].parent))
      ensures nodes[p].parent == old(nodes[p].left) && nodes[old(nodes[p].left)].parent == old(nodes[p].parent)
    {
      var q := nodes[p].left;
      ghost var t := shape;
      RotationSites(nodes, shape, p, q);
      if nodes[p].parent != 0 { ParentLinks(nodes, shape, p); }
      var b, r := RotateRightLinks(nodes, root, shape, p);
      RotatedKeys(nodes, b, t, p, RotateRightShape(t, p));
      RotatedFields(nodes, b, p);
      links := b;
      SubFacts(t, p);
      if nodes[p].parent != 0 {
        DepthOutside(t, p, RotRightAt(Sub(t, p)), nodes[p].parent);
      }
      nodes, root, shape := b, r, RotateRightShape(t, p);
      FixHeight(p);
      FixHeight(q);
    }

    /**
     * RotateRightLeft(p): a right rotation at c = p.right, then a left
     * rotation at p.  The first refreshes the heights of c and of g =
     * c.left, the second those of p and g; every other height stays.  `l1`
     * and `l2` are the arenas right after each rotation's link writes.  The
     * node that ends up on top of the rotated subtree hangs under p's old
     * parent, whose depth is unchanged.
     */
    method RotateRightLeft(p: nat) returns (ghost l1: seq<Node<nat>>, ghost mid: seq<Node<nat>>, ghost l2: seq<Node<nat>>)
      requires Valid() && p in Ids(shape) && p < |nodes| && nodes[p].right != 0
      requires nodes[p].right < |nodes| && nodes[nodes[p].right].left != 0
      modifies this
      ensures RightRotated(old(nodes), l1, old(nodes[p].right))
      ensures mid == Refreshed(Refreshed(l1, old(nodes[p].right)), old(nodes[nodes[p].right].left))
      ensures LeftRotated(mid, l2, p)
      ensures nodes == Refreshed(Refreshed(l2, p), old(nodes[nodes[p].right].left))
      ensures forall j :: 0 <= j < |nodes| && j != p && j != old(nodes[p].right) && j != old(nodes[nodes[p].right].left) ==>
        nodes[j].data == old(nodes[j].data)
      ensures Valid() && Contents() == old(Contents()) && Ids(shape) == old(Ids(shape)) && |nodes| == old(|nodes|)
      ensures shape == RotateLeftShape(RotateRightShape(old(shape), old(nodes[p].right)), p)
      ensures p < |nodes| && nodes[p].parent < |nodes| && nodes[nodes[p].parent].parent == old(nodes[p].parent)
      ensures nodes[p].parent in Ids(shape)
      ensures old(nodes[p].parent) != 0 ==> Depth(shape, old(nodes[p].parent)) == old(Depth(shape, nodes[p].parent))
    {
      ghost var a, t, pp := nodes, shape, nodes[p].parent;
      var c := nodes[p].right;
      RotationSites(nodes, shape, p, c);
      ChildLinks(nodes, shape, 0, p);
      SubFacts(t, p);
      l1 := RotateRight(c);
      mid := nodes;
      assert nodes[p].right == a[c].left && nodes[p].parent == pp;
      if pp != 0 {
        ParentLinks(a, t, p);
        SubFacts(t, c);
        DepthOutside(t, c, RotRightAt(Sub(t, c)), pp);
      }
      l2 := RotateLeft(p);
      DoubleRotationHeights(a, l1, mid, l2, nodes, p, c, a[c].left);
    }

    /** The mirror image of RotateRightLeft: c = p.left and g = c.right. */
    method RotateLeftRight(p: nat) returns (ghost l1: seq<Node<nat>>, ghost mid: seq<Node<nat>>, ghost l2: seq<Node<nat>>)
      requires Valid() && p in Ids(shape) && p < |nodes| && nodes[p].left != 0
      requires nodes[p].left < |nodes| && nodes[nodes[p].left].right != 0
      modifies this
      ensures LeftRotated(old(nodes), l1, old(nodes[p].left))
      ensures mid == Refreshed(Refreshed(l1, old(nodes[p].left)), old(nodes[nodes[p].left].right))
      ensures RightRotated(mid, l2, p)
      ensures nodes == Refreshed(Refreshed(l2, p), old(nodes[nodes[p].left].right))
      ensures forall j :: 0 <= j < |nodes| && j != p && j != old(nodes[p].left) && j != old(nodes[nodes[p].left].right) ==>
        nodes[j].data == old(nodes[j].data)
      ensures Valid() && Contents() == old(Contents()) && Ids(shape) == old(Ids(shape)) && |nodes| == old(|nodes|)
      ensures shape == RotateRightShape(RotateLeftShape(old(shape), old(nodes[p].left)), p)
      ensures p < |nodes| && nodes[p].parent < |nodes| && nodes[nodes[p].parent].parent == old(nodes[p].parent)
      ensures nodes[p].parent in Ids(shape)
      ensures old(nodes[p].parent) != 0 ==> Depth(shape, old(nodes[p].parent)) == old(Depth(shape, nodes[p].parent))
    {
      ghost var a, t, pp := nodes, shape, nodes[p].parent;
      var c := nodes[p].left;
      RotationSites(nodes, shape, p, c);
      SubFacts(t, p);
      l1 := RotateLeft(c);
      mid := nodes;
      assert nodes[p].left == a[c].right && nodes[p].parent == pp;
      if pp != 0 {
        ParentLinks(a, t, p);
        SubFacts(t, c);
        DepthOutside(t, c, RotLeftAt(Sub(t, c)), pp);
      }
      l2 := RotateRight(p);
      DoubleRotationHeights(a, l1, mid, l2, nodes, p, c, a[c].right);
    }

    /**
     * InsertBalance(node): walking up from node, refresh each height; stop
     * at the first node whose balance factor is 0, or right after one single
     * or double rotation at a node whose factor is 2 or -2.  `ok` is false
     * when the double rotation would rotate at a child that has no inner
     * child, where the source fails its assertion (or, without assertions,
     * dereferences nullptr); the walk then stops with the tree unchanged
     * from that point.
     */
    method InsertBalance(start: nat) returns (ok: bool)
      requires Valid() && (start == 0 || start in Ids(shape))
      modifies this
      ensures Valid() && Contents() == old(Contents()) && Ids(shape) == old(Ids(shape)) && |nodes| == old(|nodes|)
    {
      var node := start;
      ok := true;
      while node != 0
        invariant Valid() && Contents() == old(Contents()) && Ids(shape) == old(Ids(shape)) && |nodes| == old(|nodes|)
        invariant node == 0 || node in Ids(shape)
        decreases if node == 0 then 0 else Depth(shape, node) + 1
      {
        FixHeight(node);
        ChildLinks(nodes, shape, 0, node);
        var balance := BalanceFactor(nodes, node);
        if balance == 0 {
          break;
        }
        if balance == 2 {
          var child := nodes[node].left;
          if BalanceFactor(nodes, child) > 0 {
            ghost var l := RotateRight(node);
          } else if nodes[child].right != 0 {
            ghost var l1, mid, l2 := RotateLeftRight(node);
          } else {
            ok := false;
          }
          break;
        }
        if balance == -2 {
          var child := nodes[node].right;
          if BalanceFactor(nodes, child) < 0 {
            ghost var l := RotateLeft(node);
          } else if nodes[child].left != 0 {
            ghost var l1, mid, l2 := RotateRightLeft(node);
          } else {
            ok := false;
          }
          break;
        }
        UpLinks(node);
        node := nodes[node].parent;
      }
    }

    /** The parent of a node is nullptr exactly at the root, and otherwise one level higher. */
    lemma UpLinks(node: nat)
      requires Valid() && node in Ids(shape)
      ensures node < |nodes| && (nodes[node].parent == 0 <==> node == root)
      ensures nodes[node].parent != 0 ==> nodes[node].parent in Ids(shape) && Depth(shape, nodes[node].parent) + 1 == Depth(shape, node)
    {
      SpliceSites(nodes, shape, node);
      if node != root { ParentLinks(nodes, shape, node); }
    }

    /**
     * RemoveBalance(node), as written: walking up from node, read the
     * balance factor and stop when it is 0 before refreshing the height;
     * otherwise refresh it, and at a factor of 2 or -2 rotate, stopping
     * after a single rotation whose child factor was 0 and otherwise going
     * on from the parent of the rotated subtree.
     */
    method RemoveBalance(start: nat)
      requires Valid() && (start == 0 || start in Ids(shape))
      modifies this
      ensures Valid() && Contents() == old(Contents()) && Ids(shape) == old(Ids(shape)) && |nodes| == old(|nodes|)
      ensures start != 0 && start < |old(nodes)| && BalanceFactor(old(nodes), start) == 0 ==>
        nodes == old(nodes) && shape == old(shape) && root == old(root)
    {
      var node := start;
      while node != 0
        invariant Valid() && Contents() == old(Contents()) && Ids(shape) == old(Ids(shape)) && |nodes| == old(|nodes|)
        invariant node == 0 || node in Ids(shape)
        invariant start != 0 && start < |old(nodes)| && BalanceFactor(old(nodes), start) == 0 ==>
          node == start && nodes == old(nodes) && shape == old(shape) && root == old(root)
        decreases if node == 0 then 0 else Depth(shape, node) + 1
      {
        LinkedBounds(nodes, shape, 0);
        var balance := BalanceFactor(nodes, node);
        if balance == 0 {
          break;
        }
        FixHeight(node);
        ChildLinks(nodes, shape, 0, node);
        UpLinks(node);
        ghost var up, d := nodes[node].parent, Depth(shape, node);
        assert balance == BalanceFactor(nodes, node);
        if balance == 2 || balance == -2 {
          var stop;
          node, stop := RemoveRotate(node, balance);
          if stop {
            break;
          }
        }
        node := nodes[node].parent;
        assert node == up && (up == 0 || Depth(shape, up) + 1 == d);
      }
    }

    /**
     * The rotation step of RemoveBalance at a node whose balance factor is 2
     * or -2: a single rotation when the heavy child leans the same way or is
     * balanced (then `stop`), a double rotation when it leans the other way.
     * `top` is the node now above `node`, the top of the rotated subtree,
     * which hangs under node's old parent.
     */
    method RemoveRotate(node: nat, balance: int) returns (top: nat, stop: bool)
      requires Valid() && node in Ids(shape) && node < |nodes| && balance == BalanceFactor(nodes, node)
      requires balance == 2 || balance == -2
      modifies this
      ensures Valid() && Contents() == old(Contents()) && Ids(shape) == old(Ids(shape)) && |nodes| == old(|nodes|)
      ensures !stop ==> top in Ids(shape) && top < |nodes| && nodes[top].parent == old(nodes[node].parent)
      ensures !stop && old(nodes[node].parent) != 0 ==> Depth(shape, old(nodes[node].parent)) == old(Depth(shape, nodes[node].parent))
    {
      ChildLinks(nodes, shape, 0, node);
      stop := false;
      if balance == 2 {
        var child := nodes[node].left;
        if BalanceFactor(nodes, child) > 0 {
          ghost var l := RotateRight(node);
          top := nodes[node].parent;
        } else if BalanceFactor(nodes, child) == 0 {
          ghost var l := RotateRight(node);
          top, stop := node, true;
        } else {
          ghost var l1, mid, l2 := RotateLeftRight(node);
          top := nodes[node].parent;
        }
      } else {
        var child := nodes[node].right;
        if BalanceFactor(nodes, child) < 0 {
          ghost var l := RotateLeft(node);
          top := nodes[node].parent;
        } else if BalanceFactor(nodes, child) == 0 {
          ghost var l := RotateLeft(node);
          top, stop := node, true;
        } else {
          ghost var l1, mid, l2 := RotateRightLeft(node);
          top := nodes[node].parent;
        }
      }
    }

    /** FindNode: the node holding `key`, found by descending from the root; 0 (nullptr) if there is none. */
    method FindNode(key: int) returns (node: nat)
      requires Valid()
      ensures node == 0 <==> key !in Elems(Contents())
      ensures node != 0 ==> node in Ids(shape) && node < |nodes| && nodes[node].key == key
    {
      LinkedBounds(nodes, shape, 0);
      SubOfZero(shape);
      node := root;
      while node != 0
        invariant node == 0 || node in Ids(shape)
        invariant Ascending(KeySeq(nodes, Sub(shape, node)))
        invariant key in Elems(Contents()) <==> key in Elems(KeySeq(nodes, Sub(shape, node)))
        decreases Sub(shape, node)
      {
        DescendLinks(nodes, shape, node);
        Descend(nodes, Sub(shape, node), key);
        if nodes[node].key == key {
          return;
        }
        if key < nodes[node].key {
          node := nodes[node].left;
        } else {
          node := nodes[node].right;
        }
      }
    }

    /** FindMin(node): the leftmost node below `node`, which holds the smallest key there. */
    method FindMin(start: nat) returns (m: nat)
      requires Valid() && start in Ids(shape)
      ensures m == Leftmost(Sub(shape, start)) && m in Ids(shape) && m < |nodes| && nodes[m].left == 0
      ensures |KeySeq(nodes, Sub(shape, start))| > 0 && nodes[m].key == KeySeq(nodes, Sub(shape, start))[0]
    {
      LinkedBounds(nodes, shape, 0);
      m := start;
      while nodes[m].left != 0
        invariant m in Ids(shape) && Leftmost(Sub(shape, m)) == Leftmost(Sub(shape, start))
        decreases Sub(shape, m)
      {
        ChildLinks(nodes, shape, 0, m);
        m := nodes[m].left;
      }
      ChildLinks(nodes, shape, 0, m);
      SubFacts(shape, start);
      LeftmostFacts(Sub(shape, start));
    }

    /**
     * InsertNode: descend from the root as FindNode does; a present key
     * leaves the tree as it is.  Otherwise a new leaf of height 1 is hung
     * under the last node visited, on the side `key < parent.key` selects,
     * and InsertBalance runs from that parent.
     */
    method InsertNode(key: int) returns (ok: bool)
      requires Valid()
      modifies this
      ensures Valid()
      ensures key in Elems(old(Contents())) ==> nodes == old(nodes) && shape == old(shape) && root == old(root)
      ensures Elems(Contents()) == Elems(old(Contents())) + {key}
    {
      ghost var a, T := nodes, shape;
      LinkedBounds(nodes, shape, 0);
      SubOfZero(shape);
      var n := |nodes|;
      if root == 0 {
        nodes := nodes + [Node(key, 0, 0, 0, 1)];
        AttachLinked(a, nodes, T, key, 0);
        InsertAtKeys(a, nodes, T, key, n);
        root := n;
        shape := InsertAt(a, T, key, n);
        ok := true;
        return;
      }
      var parent, found := FindParent(nodes, shape, root, key);
      if found {
        ok := true;
        return;
      }
      // hang the new leaf under parent
      nodes := nodes + [Node(key, 0, 0, parent, 1)];
      assert HeightsPositive(nodes);
      if key < nodes[parent].key {
        nodes := nodes[parent := nodes[parent].(left := n)];
      } else {
        nodes := nodes[parent := nodes[parent].(right := n)];
      }
      assert HeightsPositive(nodes);
      AttachLinked(a, nodes, T, key, parent);
      InsertAtKeys(a, nodes, T, key, n);
      InsertAtIds(a, T, key, n);
      shape := InsertAt(a, T, key, n);
      assert Valid() && parent in Ids(shape);
      ok := InsertBalance(parent);
    }

    /**
     * RemoveNode: find the node z holding `key`; an absent key leaves the
     * tree as it is.  The node y cut out is z when z has at most one child,
     * and otherwise the leftmost node of z's right subtree, whose key is
     * then copied into z.  y's only child x takes y's place, RemoveBalance
     * runs from y's parent, and y's child links are cleared.
     */
    method RemoveNode(key: int)
      requires Valid()
      modifies this
      ensures Valid()
      ensures key !in Elems(old(Contents())) ==> nodes == old(nodes) && shape == old(shape) && root == old(root)
      ensures Elems(Contents()) == Elems(old(Contents())) - {key}
    {
      var node := FindNode(key);
      if node == 0 {
        return;
      }
      ghost var a, T := nodes, shape;
      ChildLinks(nodes, shape, 0, node);
      var y := node;
      var x := 0;
      if nodes[node].left == 0 {
        x := nodes[node].right;
      } else if nodes[node].right == 0 {
        x := nodes[node].left;
      } else {
        y := FindMin(nodes[node].right);
        x := nodes[y].right;
      }
      assert x == OnlyChild(a, y);
      Exclude(node, y, x);
      RemoveBalance(nodes[y].parent);
      // y leaves the tree with its child links cleared
      ghost var c := nodes;
      assert y !in Ids(shape);
      nodes := nodes[y := nodes[y].(left := 0, right := 0)];
      WriteOutside(c, nodes, shape, y);
    }

    /**
     * The exclusion step of RemoveNode: y, which has at most one child, is
     * cut out, and when y is not z its key is copied into z.
     */
    method Exclude(z: nat, y: nat, x: nat)
      requires Valid() && z in Ids(shape) && z < |nodes|
      requires y == if nodes[z].left == 0 || nodes[z].right == 0 then z else Leftmost(Sub(shape, nodes[z].right))
      requires x == OnlyChild(nodes, y)
      modifies this
      ensures Valid() && shape == SpliceShape(old(nodes), old(shape), y) && |nodes| == old(|nodes|)
      ensures Ids(shape) == old(Ids(shape)) - {y} && y !in Ids(shape)
      ensures Elems(Contents()) == Elems(old(Contents())) - {old(nodes[z].key)}
      ensures y < |nodes| && nodes[y] == old(nodes[y]) && (nodes[y].parent == 0 || nodes[y].parent in Ids(shape))
      ensures forall i :: 0 <= i < |nodes| ==> nodes[i].data == old(nodes[i].data)
      ensures nodes[z].key == old(nodes[y].key) && forall i :: 0 <= i < |nodes| && i != z ==> nodes[i].key == old(nodes[i].key)
    {
      ghost var a, T := nodes, shape;
      ChildLinks(nodes, shape, 0, z);
      if !(nodes[z].left == 0 || nodes[z].right == 0) {
        ghost var m := SuccessorSite(nodes, shape, z);
      }
      Splice(y, x);
      ghost var b := nodes;
      if y != z {
        nodes := nodes[z := nodes[z].(key := nodes[y].key)];
      }
      assert forall i :: 0 <= i < |nodes| ==> nodes[i].data == a[i].data && (i != z ==> nodes[i].key == a[i].key);
      LinkedFrame(b, nodes, shape, 0);
      RemoveKeys(a, nodes, T, z, y);
    }

    /**
     * Cutting out y, which has at most one child x: x takes y's parent, and
     * y's parent names x where it named y, or x becomes the root.  Keys and
     * heights stay where they are.
     */
    method Splice(y: nat, x: nat)
      requires Valid() && y in Ids(shape) && y < |nodes| && (nodes[y].left == 0 || nodes[y].right == 0)
      requires x == OnlyChild(nodes, y)
      modifies this
      ensures WellLinked(nodes, shape) && root == Root(shape) && HeightsPositive(nodes) && |nodes| == old(|nodes|)
      ensures shape == SpliceShape(old(nodes), old(shape), y)
      ensures Ids(shape) == old(Ids(shape)) - {y} && y !in Ids(shape)
      ensures forall i :: 0 <= i < |nodes| ==> nodes[i].key == old(nodes[i].key) && nodes[i].data == old(nodes[i].data)
      ensures nodes[y] == old(nodes[y]) && (nodes[y].parent == 0 || nodes[y].parent in Ids(shape))
    {
      ghost var a, T := nodes, shape;
      SpliceSites(a, T, y);
      ghost var pp := a[y].parent;
      if x != 0 {
        nodes := nodes[x := nodes[x].(parent := nodes[y].parent)];
      }
      assert nodes[y] == a[y] && (pp != 0 ==> nodes[pp] == a[pp]);
      if nodes[y].parent == 0 {
        root := x;
      } else if y == nodes[nodes[y].parent].left {
        nodes := nodes[nodes[y].parent := nodes[nodes[y].parent].(left := x)];
      } else {
        nodes := nodes[nodes[y].parent := nodes[nodes[y].parent].(right := x)];
      }
      assert forall i :: 0 <= i < |nodes| ==> nodes[i].key == a[i].key && nodes[i].data == a[i].data;
      SpliceLinked(a, nodes, T, y);
      shape := SpliceShape(a, T, y);
    }

    method Insert(key: int) returns (ok: bool)
      requires Valid()
      modifies this
      ensures Valid()
      ensures key in Elems(old(Contents())) ==> nodes == old(nodes) && shape == old(shape) && root == old(root)
      ensures Elems(Contents()) == Elems(old(Contents())) + {key}
    {
      ok := InsertNode(key);
    }

    method Remove(key: int)
      requires Valid()
      modifies this
      ensures Valid()
      ensures key !in Elems(old(Contents())) ==> nodes == old(nodes) && shape == old(shape) && root == old(root)
      ensures Elems(Contents()) == Elems(old(Contents())) - {key}
    {
      RemoveNode(key);
    }

    method Find(key: int) returns (found: bool)
      requires Valid()
      ensures found <==> key in Elems(Contents())
    {
      var node := FindNode(key);
      found := node != 0;
    }

    /** Clear: the tree becomes empty (the nodes' storage is not modelled). */
    method Clear()
      requires Valid()
      modifies this
      ensures Valid() && Contents() == [] && root == 0 && nodes == old(nodes[..1])
    {
      nodes := nodes[..1];
      root := 0;
      shape := Nil;
    }

    /** GetVector: the keys in in-order, which are strictly ascending. */
    method GetVector() returns (v: seq<int>)
      requires Valid()
      ensures v == Contents() && Ascending(v)
    {
      v := CollectKeys(root, []);
    }

    /** GetVector(node, vec): appends the keys of the subtree at `node` to `vec`, in in-order. */
    method CollectKeys(node: nat, vec: seq<int>) returns (out: seq<int>)
      requires Valid() && (node == 0 || node in Ids(shape))
      ensures out == vec + KeySeq(nodes, Sub(shape, node))
      decreases Sub(shape, node)
    {
      LinkedBounds(nodes, shape, 0);
      SubOfZero(shape);
      if node == 0 {
        return vec;
      }
      DescendLinks(nodes, shape, node);
      KeySeqBr(nodes, node, Sub(shape, nodes[node].left), Sub(shape, nodes[node].right));
      out := CollectKeys(nodes[node].left, vec);
      out := out + [nodes[node].key];
      out := CollectKeys(nodes[node].right, out);
    }

    /** Height(): the height stored at the root, 0 for the empty tree. */
    method Height() returns (h: nat)
      requires Valid()
      ensures h == HeightOf(nodes, root)
      ensures h == 0 <==> Contents() == []
    {
      LinkedBounds(nodes, shape, 0);
      if root == 0 {
        return 0;
      }
      h := nodes[root].data;
    }
  }

  /**
   * The stale height RemoveBalance leaves: the root holds key 2 and stored
   * height 2, with a left leaf holding key 1.  Removing key 1 takes
   * RemoveNode's path for a node without a left child (y and z are the
   * leaf, x is nullptr): the leaf is cut out, and the walk starts at the
   * root, whose balance factor is now 0, so it stops before FixHeight.
   * The root is left childless with height 2 where its height is 1.
   */
  method StaleHeight() returns (t: AVLTreeIterative)
    ensures t.Valid() && t.Contents() == [2] && t.root == 1 && |t.nodes| == 3
    ensures t.nodes[1].left == 0 && t.nodes[1].right == 0 && t.nodes[1].data == 2
  {
    t := new AVLTreeIterative();
    t.nodes := [Node(0, 0, 0, 0, 0), Node(2, 2, 0, 0, 2), Node(1, 0, 0, 1, 1)];
    t.root := 1;
    t.shape := Br(1, Br(2, Nil, Nil), Nil);
    assert t.Valid();
    t.Exclude(2, 2, 0);
    assert t.shape == Br(1, Nil, Nil) && t.nodes[1].key == 2;
    t.RemoveBalance(t.nodes[2].parent);
  }
}
