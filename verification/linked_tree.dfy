/*
 * Binary trees whose nodes hold parent links, as in BSTree/AVLTreeIterative.cpp
 * and BSTree/RBTree.cpp, modelled as an arena: slot i of a sequence is the
 * node with id i, and every pointer is an id.  Id 0 stands for nullptr in the
 * iterative AVL tree and for the shared sentinel `nil` in the red-black tree;
 * no tree node ever has id 0.
 *
 * A ghost `Shape` records which id sits where.  `Linked` says that the links
 * stored in the arena are exactly those of the shape, so the shape is the
 * abstraction of the pointer graph: its in-order id sequence gives the key
 * sequence that GetVector returns.  The pointer surgery both files share
 * (rotations) and the lemmas about attaching and splicing out nodes live here.
 */
module LinkedTree {
  import opened SortedSeq

  /**
   * One node of the arena: key, the ids of its children and parent, and the
   * balancing datum of the variant (the stored height of an AVL node, the
   * colour of a red-black node).
   */
  datatype Node<D> = Node(key: int, left: nat, right: nat, parent: nat, data: D)

  /** Where each node id sits in the tree. */
  datatype Shape = Nil | Br(id: nat, left: Shape, right: Shape)

  /** The id at the top of a shape; 0 (nullptr / nil) for the empty shape. */
  function Root(t: Shape): nat
  {
    if t.Nil? then 0 else t.id
  }

  function Ids(t: Shape): set<nat>
  {
    match t
    case Nil => {}
    case Br(i, l, r) => Ids(l) + {i} + Ids(r)
  }

  /** No id occurs twice. */
  ghost predicate Distinct(t: Shape)
  {
    match t
    case Nil => true
    case Br(i, l, r) =>
      && i !in Ids(l) && i !in Ids(r) && Ids(l) !! Ids(r)
      && Distinct(l) && Distinct(r)
  }

  /**
   * The arena's links are those of the shape: each node's left, right and
   * parent fields name its children's roots and the node above it, `pid`
   * for the top node.
   */
  ghost predicate Linked<D>(a: seq<Node<D>>, t: Shape, pid: nat)
  {
    match t
    case Nil => true
    case Br(i, l, r) =>
      && 0 < i < |a|
      && a[i].left == Root(l) && a[i].right == Root(r) && a[i].parent == pid
      && Linked(a, l, i) && Linked(a, r, i)
  }

  /** A whole tree: distinct ids, linked, and the root's parent is nullptr / nil. */
  ghost predicate WellLinked<D>(a: seq<Node<D>>, t: Shape)
  {
    Distinct(t) && Linked(a, t, 0)
  }

  /** Two nodes with the same links (keys and balancing data may differ). */
  ghost predicate SameLinks<D>(x: Node<D>, y: Node<D>)
  {
    x.left == y.left && x.right == y.right && x.parent == y.parent
  }

  /** The ids in in-order. */
  function Order(t: Shape): seq<nat>
  {
    match t
    case Nil => []
    case Br(i, l, r) => Order(l) + [i] + Order(r)
  }

  /** In-order lists exactly the ids of the shape. */
  lemma {:induction false} OrderIds(t: Shape)
    ensures forall i :: i in Order(t) <==> i in Ids(t)
  {
    match t
    case Nil =>
    case Br(i, l, r) =>
      OrderIds(l);
      OrderIds(r);
  }

  function KeyAt<D>(a: seq<Node<D>>, i: nat): int
  {
    if i < |a| then a[i].key else 0
  }

  /** The keys of a sequence of ids. */
  function KeysOf<D>(a: seq<Node<D>>, ids: seq<nat>): (s: seq<int>)
    ensures |s| == |ids|
  {
    seq(|ids|, k requires 0 <= k < |ids| => KeyAt(a, ids[k]))
  }

  /** The in-order key sequence of a shape: what GetVector collects. */
  function KeySeq<D>(a: seq<Node<D>>, t: Shape): seq<int>
  {
    KeysOf(a, Order(t))
  }

  /** The subtree rooted at `id` (empty when `id` does not occur). */
  function Sub(t: Shape, id: nat): Shape
  {
    match t
    case Nil => Nil
    case Br(i, l, r) =>
      if i == id then t
      else if id in Ids(l) then Sub(l, id)
      else Sub(r, id)
  }

  /** The shape with the subtree rooted at `id` replaced by `s`. */
  function Replace(t: Shape, id: nat, s: Shape): Shape
  {
    match t
    case Nil => Nil
    case Br(i, l, r) =>
      if i == id then s
      else if id in Ids(l) then Br(i, Replace(l, id, s), r)
      else if id in Ids(r) then Br(i, l, Replace(r, id, s))
      else t
  }

  /** Number of links from the top of the shape down to `id`. */
  function Depth(t: Shape, id: nat): nat
  {
    match t
    case Nil => 0
    case Br(i, l, r) =>
      if i == id then 0
      else if id in Ids(l) then 1 + Depth(l, id)
      else if id in Ids(r) then 1 + Depth(r, id)
      else 0
  }

  // ---------------------------------------------------------------------------
  // Key sequences

  lemma KeysOfConcat<D>(a: seq<Node<D>>, x: seq<nat>, y: seq<nat>)
    ensures KeysOf(a, x + y) == KeysOf(a, x) + KeysOf(a, y)
  {
    assert forall k :: 0 <= k < |x| + |y| ==> KeysOf(a, x + y)[k] == (KeysOf(a, x) + KeysOf(a, y))[k];
  }

  lemma KeySeqBr<D>(a: seq<Node<D>>, i: nat, l: Shape, r: Shape)
    ensures KeySeq(a, Br(i, l, r)) == KeySeq(a, l) + [KeyAt(a, i)] + KeySeq(a, r)
  {
    KeysOfConcat(a, Order(l) + [i], Order(r));
    KeysOfConcat(a, Order(l), [i]);
  }

  /** Key sequences only depend on the keys of the ids involved. */
  lemma KeysOfSame<D, E>(a: seq<Node<D>>, b: seq<Node<E>>, ids: seq<nat>)
    requires forall i :: i in ids ==> KeyAt(a, i) == KeyAt(b, i)
    ensures KeysOf(a, ids) == KeysOf(b, ids)
  {
    assert forall k :: 0 <= k < |ids| ==> KeysOf(a, ids)[k] == KeysOf(b, ids)[k];
  }

  lemma KeySeqElems<D>(a: seq<Node<D>>, t: Shape)
    ensures Elems(KeySeq(a, t)) == set i | i in Ids(t) :: KeyAt(a, i)
  {
    var s := KeySeq(a, t);
    var o := Order(t);
    OrderIds(t);
    forall x | x in Elems(s) ensures x in set i | i in Ids(t) :: KeyAt(a, i) {
      var k :| 0 <= k < |s| && s[k] == x;
      assert o[k] in Ids(t);
    }
    forall i | i in Ids(t) ensures KeyAt(a, i) in Elems(s) {
      var k :| 0 <= k < |o| && o[k] == i;
      assert s[k] == KeyAt(a, i);
    }
  }

  // ---------------------------------------------------------------------------
  // Basic facts about linked shapes

  lemma {:induction false} LinkedBounds<D>(a: seq<Node<D>>, t: Shape, pid: nat)
    requires Linked(a, t, pid)
    ensures forall i :: i in Ids(t) ==> 0 < i < |a|
  {
    match t
    case Nil =>
    case Br(i, l, r) =>
      LinkedBounds(a, l, i);
      LinkedBounds(a, r, i);
  }

  /** Linked only looks at the links of the shape's own ids. */
  lemma {:induction false} LinkedFrame<D, E>(a: seq<Node<D>>, b: seq<Node<E>>, t: Shape, pid: nat)
    requires Linked(a, t, pid)
    requires forall i :: i in Ids(t) && i < |a| ==> i < |b| && a[i].left == b[i].left && a[i].right == b[i].right && a[i].parent == b[i].parent
    ensures Linked(b, t, pid)
  {
    LinkedBounds(a, t, pid);
    match t
    case Nil =>
    case Br(i, l, r) =>
      LinkedFrame(a, b, l, i);
      LinkedFrame(a, b, r, i);
  }

  /** Sub finds the subtree of an id that occurs. */
  lemma {:induction false} SubFacts(t: Shape, id: nat)
    requires Distinct(t) && id in Ids(t)
    ensures Sub(t, id).Br? && Sub(t, id).id == id
    ensures Distinct(Sub(t, id)) && Ids(Sub(t, id)) <= Ids(t)
    ensures id == Root(t) <==> Sub(t, id) == t
  {
    match t
    case Br(i, l, r) =>
      if i != id {
        if id in Ids(l) { SubFacts(l, id); } else { SubFacts(r, id); }
      }
  }

  /** The subtree of an id is linked under that node's parent; the parent of a non-top node is inside. */
  lemma {:induction false} SubLinked<D>(a: seq<Node<D>>, t: Shape, pid: nat, id: nat)
    requires Linked(a, t, pid) && Distinct(t) && id in Ids(t)
    ensures Sub(t, id).Br? && Sub(t, id).id == id && Distinct(Sub(t, id)) && Ids(Sub(t, id)) <= Ids(t)
    ensures 0 < id < |a|
    ensures Linked(a, Sub(t, id), a[id].parent)
    ensures id == Root(t) ==> a[id].parent == pid
    ensures id != Root(t) ==> a[id].parent in Ids(t) - Ids(Sub(t, id))
    ensures id != Root(t) ==> Depth(t, a[id].parent) + 1 == Depth(t, id)
  {
    SubFacts(t, id);
    match t
    case Br(i, l, r) =>
      if i != id {
        if id in Ids(l) {
          SubLinked(a, l, i, id);
          SubFacts(l, id);
        } else {
          SubLinked(a, r, i, id);
          SubFacts(r, id);
        }
      }
  }

  /** Local consequences of Linked at one node: its children are in the tree and point back at it. */
  lemma ChildLinks<D>(a: seq<Node<D>>, t: Shape, pid: nat, id: nat)
    requires Linked(a, t, pid) && Distinct(t) && id in Ids(t)
    ensures 0 < id < |a|
    ensures a[id].left != 0 ==> a[id].left in Ids(Sub(t, id)) && a[id].left in Ids(t) && a[id].left < |a| && a[a[id].left].parent == id
    ensures a[id].right != 0 ==> a[id].right in Ids(Sub(t, id)) && a[id].right in Ids(t) && a[id].right < |a| && a[a[id].right].parent == id
    ensures a[id].left != 0 ==> a[id].left != a[id].right
    ensures a[id].left != id && a[id].right != id
    ensures Sub(t, id).Br? && Sub(t, id).id == id
    ensures Sub(t, id).left == Sub(t, a[id].left) && Sub(t, id).right == Sub(t, a[id].right)
    ensures (a[id].left == 0 <==> Sub(t, id).left == Nil) && (a[id].right == 0 <==> Sub(t, id).right == Nil)
  {
    SubLinked(a, t, pid, id);
    SubFacts(t, id);
    LinkedBounds(a, t, pid);
    var s := Sub(t, id);
    if s.left.Br? { SubInner(t, id, s.left.id); }
    if s.right.Br? { SubInner(t, id, s.right.id); }
    SubOfZero(t);
  }

  lemma {:induction false} SubOfZero(t: Shape)
    requires 0 !in Ids(t)
    ensures Sub(t, 0) == Nil
  {
    match t
    case Nil =>
    case Br(i, l, r) => SubOfZero(r);
  }

  /** Ids below `id` have the same subtree in the whole shape as in Sub(t, id). */
  lemma {:induction false} SubInner(t: Shape, id: nat, j: nat)
    requires Distinct(t) && id in Ids(t) && j in Ids(Sub(t, id))
    ensures Sub(t, j) == Sub(Sub(t, id), j)
  {
    SubFacts(t, id);
    match t
    case Br(i, l, r) =>
      if i != id {
        if id in Ids(l) {
          SubFacts(l, id);
          SubInner(l, id, j);
        } else {
          SubFacts(r, id);
          SubInner(r, id, j);
        }
      }
  }

  /** Every child link of a node of a linked shape stays inside the shape. */
  lemma {:induction false} LinksWithin<D>(a: seq<Node<D>>, t: Shape, pid: nat)
    requires Linked(a, t, pid)
    ensures forall j :: j in Ids(t) ==> j < |a| && (a[j].left == 0 || a[j].left in Ids(t)) && (a[j].right == 0 || a[j].right in Ids(t))
  {
    match t
    case Nil =>
    case Br(i, l, r) =>
      LinksWithin(a, l, i);
      LinksWithin(a, r, i);
  }

  /** A node below the top is a child of its parent, which is in the shape. */
  lemma ParentLinks<D>(a: seq<Node<D>>, t: Shape, j: nat)
    requires WellLinked(a, t) && j in Ids(t) && j != Root(t)
    ensures j < |a| && a[j].parent in Ids(t) && a[j].parent < |a|
    ensures a[a[j].parent].left == j || a[a[j].parent].right == j
    ensures Depth(t, a[j].parent) + 1 == Depth(t, j)
  {
    SubLinked(a, t, 0, j);
    LinkedBounds(a, t, 0);
    ParentHasChild(a, t, 0, j);
  }

  lemma {:induction false} ParentHasChild<D>(a: seq<Node<D>>, t: Shape, pid: nat, j: nat)
    requires Linked(a, t, pid) && Distinct(t) && j in Ids(t) && j != Root(t)
    ensures j < |a| && a[j].parent < |a| && (a[a[j].parent].left == j || a[a[j].parent].right == j)
  {
    match t
    case Br(i, l, r) =>
      if j in Ids(l) {
        if j == l.id { } else { ParentHasChild(a, l, i, j); }
      } else {
        if j == r.id { } else { ParentHasChild(a, r, i, j); }
      }
  }

  /** Only a node's parent links to it. */
  lemma OnlyParentLinks<D>(a: seq<Node<D>>, t: Shape, j: nat, c: nat)
    requires WellLinked(a, t) && j in Ids(t) && j < |a| && c != 0 && (a[j].left == c || a[j].right == c)
    ensures c < |a| && a[c].parent == j
  {
    ChildLinks(a, t, 0, j);
  }

  /** Linked survives a change of the top node's parent when every other link stays. */
  lemma LinkedReparent<D>(a: seq<Node<D>>, b: seq<Node<D>>, t: Shape, pid: nat, pid2: nat)
    requires Linked(a, t, pid) && Distinct(t)
    requires forall i :: i in Ids(t) && i < |a| ==> i < |b| && a[i].left == b[i].left && a[i].right == b[i].right && (i == Root(t) || a[i].parent == b[i].parent)
    requires t.Br? ==> t.id < |b| && b[t.id].parent == pid2
    ensures Linked(b, t, pid2)
  {
    LinkedBounds(a, t, pid);
    match t
    case Nil =>
    case Br(i, l, r) =>
      LinkedFrame(a, b, l, i);
      LinkedFrame(a, b, r, i);
  }

  // ---------------------------------------------------------------------------
  // Replacing a subtree

  /** The ids of `t` that are not below `id`. */
  function Outside(t: Shape, id: nat): set<nat>
  {
    Ids(t) - Ids(Sub(t, id))
  }

  /**
   * Node j carries in `b` the links it had in `a`, except that a child link
   * to `was` now points to `now`.
   */
  ghost predicate Relinked<D>(a: seq<Node<D>>, b: seq<Node<D>>, j: nat, was: nat, now: nat)
  {
    && j < |a| && j < |b| && b[j].parent == a[j].parent
    && b[j].left == (if a[j].left == was then now else a[j].left)
    && b[j].right == (if a[j].right == was then now else a[j].right)
  }

  lemma {:induction false} ReplaceIds(t: Shape, id: nat, s: Shape)
    requires Distinct(t) && id in Ids(t)
    ensures Ids(Replace(t, id, s)) == Outside(t, id) + Ids(s)
    ensures Root(Replace(t, id, s)) == if id == Root(t) then Root(s) else Root(t)
  {
    match t
    case Br(i, l, r) =>
      if i != id {
        if id in Ids(l) {
          ReplaceIds(l, id, s);
          SubFacts(l, id);
        } else {
          ReplaceIds(r, id, s);
          SubFacts(r, id);
        }
      }
  }

  /**
   * Replacing the subtree at `id` by a shape `s` that is linked under id's
   * parent, while the rest of the arena keeps its links except the parent's
   * child link, gives a linked shape again.
   */
  lemma {:induction false} ReplaceLinked<D>(a: seq<Node<D>>, b: seq<Node<D>>, t: Shape, pid: nat, id: nat, s: Shape)
    requires Linked(a, t, pid) && Distinct(t) && id in Ids(t)
    requires Distinct(s) && Ids(s) !! Outside(t, id)
    requires id < |a| && Linked(b, s, a[id].parent)
    requires forall j :: j in Outside(t, id) ==> Relinked(a, b, j, id, Root(s))
    ensures Linked(b, Replace(t, id, s), pid) && Distinct(Replace(t, id, s))
    ensures Ids(Replace(t, id, s)) == Outside(t, id) + Ids(s)
  {
    ReplaceIds(t, id, s);
    LinkedBounds(a, t, pid);
    match t
    case Br(i, l, r) =>
      if i != id {
        SubFacts(t, id);
        if id in Ids(l) {
          SubFacts(l, id);
          assert Outside(l, id) <= Outside(t, id);
          ReplaceLinked(a, b, l, i, id, s);
          ReplaceIds(l, id, s);
          assert i in Outside(t, id);
          LinksWithin(a, r, i);
          forall j | j in Ids(r) && j < |a|
            ensures j < |b| && a[j].left == b[j].left && a[j].right == b[j].right && a[j].parent == b[j].parent
          {
            assert j in Outside(t, id);
          }
          LinkedFrame(a, b, r, i);
        } else {
          SubFacts(r, id);
          assert Outside(r, id) <= Outside(t, id);
          ReplaceLinked(a, b, r, i, id, s);
          ReplaceIds(r, id, s);
          assert i in Outside(t, id);
          LinksWithin(a, l, i);
          forall j | j in Ids(l) && j < |a|
            ensures j < |b| && a[j].left == b[j].left && a[j].right == b[j].right && a[j].parent == b[j].parent
          {
            assert j in Outside(t, id);
          }
          LinkedFrame(a, b, l, i);
        }
      }
  }

  /** The subtree that replaced `id` is found again at its own top id. */
  lemma {:induction false} SubOfReplace(t: Shape, id: nat, s: Shape)
    requires Distinct(t) && id in Ids(t) && s.Br? && Ids(s) !! Outside(t, id)
    ensures Sub(Replace(t, id, s), s.id) == s
  {
    match t
    case Br(i, l, r) =>
      if i != id {
        SubFacts(t, id);
        if id in Ids(l) {
          SubFacts(l, id);
          assert Outside(l, id) <= Outside(t, id);
          ReplaceIds(l, id, s);
          SubOfReplace(l, id, s);
        } else {
          SubFacts(r, id);
          assert Outside(r, id) <= Outside(t, id);
          ReplaceIds(r, id, s);
          SubOfReplace(r, id, s);
          assert s.id !in Ids(l);
        }
      }
  }

  /** The ids in in-order before the subtree at `id`. */
  function Before(t: Shape, id: nat): seq<nat>
  {
    match t
    case Nil => []
    case Br(i, l, r) =>
      if i == id then []
      else if id in Ids(l) then Before(l, id)
      else if id in Ids(r) then Order(l) + [i] + Before(r, id)
      else []
  }

  /** The ids in in-order after the subtree at `id`. */
  function After(t: Shape, id: nat): seq<nat>
  {
    match t
    case Nil => []
    case Br(i, l, r) =>
      if i == id then []
      else if id in Ids(l) then After(l, id) + [i] + Order(r)
      else if id in Ids(r) then After(r, id)
      else []
  }

  /** In-order around a subtree, and around what replaces it. */
  lemma OrderSplit(t: Shape, id: nat, s: Shape)
    requires id in Ids(t)
    ensures Order(t) == Before(t, id) + Order(Sub(t, id)) + After(t, id)
    ensures Order(Replace(t, id, s)) == Before(t, id) + Order(s) + After(t, id)
  {
    OrderAround(t, id, Sub(t, id));
    OrderAround(t, id, s);
    ReplaceBySelf(t, id);
  }

  lemma {:induction false} ReplaceBySelf(t: Shape, id: nat)
    ensures Replace(t, id, Sub(t, id)) == t
  {
    match t
    case Nil =>
    case Br(i, l, r) =>
      if i != id {
        if id in Ids(l) { ReplaceBySelf(l, id); } else if id in Ids(r) { ReplaceBySelf(r, id); }
      }
  }

  /** Concatenation regrouped: (A + B + C) + D == A + B + (C + D), and A + (B + C + D) == A + B + C + D. */
  lemma Regroup(A: seq<nat>, B: seq<nat>, C: seq<nat>, D: seq<nat>)
    ensures (A + B + C) + D == A + B + (C + D)
    ensures A + (B + C + D) == A + B + C + D
  {
  }

  lemma {:induction false} OrderAround(t: Shape, id: nat, s: Shape)
    requires id in Ids(t)
    ensures Order(Replace(t, id, s)) == Before(t, id) + Order(s) + After(t, id)
  {
    match t
    case Br(i, l, r) =>
      if i == id {
        assert Replace(t, id, s) == s && Before(t, id) == [] && After(t, id) == [];
      } else if id in Ids(l) {
        OrderAround(l, id, s);
        OrderAroundLeft(t, id, s);
      } else {
        OrderAround(r, id, s);
        OrderAroundRight(t, id, s);
      }
  }

  /** One step of OrderAround when id lies in the left subtree. */
  lemma OrderAroundLeft(t: Shape, id: nat, s: Shape)
    requires t.Br? && t.id != id && id in Ids(t.left)
    requires Order(Replace(t.left, id, s)) == Before(t.left, id) + Order(s) + After(t.left, id)
    ensures Order(Replace(t, id, s)) == Before(t, id) + Order(s) + After(t, id)
  {
    var x := Replace(t.left, id, s);
    assert Replace(t, id, s) == Br(t.id, x, t.right);
    assert Before(t, id) == Before(t.left, id) && After(t, id) == After(t.left, id) + [t.id] + Order(t.right);
    Regroup(Before(t.left, id), Order(s), After(t.left, id), [t.id] + Order(t.right));
  }

  /** One step of OrderAround when id lies in the right subtree. */
  lemma OrderAroundRight(t: Shape, id: nat, s: Shape)
    requires t.Br? && t.id != id && id !in Ids(t.left) && id in Ids(t.right)
    requires Order(Replace(t.right, id, s)) == Before(t.right, id) + Order(s) + After(t.right, id)
    ensures Order(Replace(t, id, s)) == Before(t, id) + Order(s) + After(t, id)
  {
    var x := Replace(t.right, id, s);
    assert Replace(t, id, s) == Br(t.id, t.left, x);
    assert Before(t, id) == Order(t.left) + [t.id] + Before(t.right, id) && After(t, id) == After(t.right, id);
    Regroup(Order(t.left) + [t.id], Before(t.right, id), Order(s), After(t.right, id));
  }

  /** Replacing a subtree does not move the nodes outside it. */
  lemma {:induction false} DepthOutside(t: Shape, id: nat, s: Shape, j: nat)
    requires Distinct(t) && id in Ids(t) && j in Outside(t, id) && j !in Ids(s)
    ensures Depth(Replace(t, id, s), j) == Depth(t, j)
  {
    match t
    case Br(i, l, r) =>
      if i != id && i != j {
        SubFacts(t, id);
        if id in Ids(l) {
          SubFacts(l, id);
          ReplaceIds(l, id, s);
          if j in Ids(l) { DepthOutside(l, id, s, j); }
        } else {
          SubFacts(r, id);
          ReplaceIds(r, id, s);
          if j in Ids(r) { DepthOutside(r, id, s, j); }
        }
      }
  }

  /** Replacing inside a replaced subtree. */
  lemma {:induction false} ReplaceNested(t: Shape, id: nat, j: nat, x: Shape)
    requires Distinct(t) && id in Ids(t) && j in Ids(Sub(t, id))
    ensures Replace(t, id, Replace(Sub(t, id), j, x)) == Replace(t, j, x)
  {
    SubFacts(t, id);
    match t
    case Br(i, l, r) =>
      if i != id {
        if id in Ids(l) {
          SubFacts(l, id);
          ReplaceNested(l, id, j, x);
        } else {
          SubFacts(r, id);
          ReplaceNested(r, id, j, x);
        }
      }
  }

  /** Ids in in-order are distinct when the shape's ids are. */
  lemma {:induction false} OrderDistinct(t: Shape)
    requires Distinct(t)
    ensures forall u, v :: 0 <= u < v < |Order(t)| ==> Order(t)[u] != Order(t)[v]
  {
    match t
    case Nil =>
    case Br(i, l, r) =>
      OrderDistinct(l);
      OrderDistinct(r);
      OrderIds(l);
      OrderIds(r);
      var o := Order(t);
      forall u, v | 0 <= u < v < |o| ensures o[u] != o[v] {
        var n := |Order(l)|;
        if u < n && v == n {
          assert o[u] in Order(l);
        } else if u < n && v > n {
          assert o[u] in Order(l) && o[v] == Order(r)[v - n - 1] && o[v] in Order(r);
        } else if u == n && v > n {
          assert o[v] == Order(r)[v - n - 1] && o[v] in Order(r);
        } else if u > n {
          assert o[u] == Order(r)[u - n - 1] && o[v] == Order(r)[v - n - 1];
        }
      }
  }

  // ---------------------------------------------------------------------------
  // Rotations: the pointer writes both trees share

  /** A left rotation at the top of a subtree: p's right child q takes p's place. */
  function RotLeftAt(s: Shape): Shape
  {
    if s.Br? && s.right.Br? then Br(s.right.id, Br(s.id, s.left, s.right.left), s.right.right) else s
  }

  /** A right rotation at the top of a subtree: p's left child q takes p's place. */
  function RotRightAt(s: Shape): Shape
  {
    if s.Br? && s.left.Br? then Br(s.left.id, s.left.left, Br(s.id, s.left.right, s.right)) else s
  }

  function RotateLeftShape(t: Shape, p: nat): Shape
  {
    Replace(t, p, RotLeftAt(Sub(t, p)))
  }

  function RotateRightShape(t: Shape, p: nat): Shape
  {
    Replace(t, p, RotRightAt(Sub(t, p)))
  }

  /**
   * `b` is `a` after the writes of a left rotation at p: with q = p.right,
   * c = q.left and pp = p.parent, p.right becomes c and c's parent p; q
   * takes p's parent and p's place under it; q.left becomes p and p's
   * parent q.  Nothing else changes, in particular slot 0.
   */
  ghost predicate LeftRotated<D>(a: seq<Node<D>>, b: seq<Node<D>>, p: nat)
  {
    && 0 < p < |a| && 0 < a[p].right < |a| && a[a[p].right].left < |a| && a[p].parent < |a| && |b| == |a|
    && var q, c, pp := a[p].right, a[a[p].right].left, a[p].parent;
    && b[p] == a[p].(right := c, parent := q)
    && b[q] == a[q].(left := p, parent := pp)
    && (c != 0 ==> b[c] == a[c].(parent := p))
    && (pp != 0 ==> b[pp] == if a[pp].left == p then a[pp].(left := q) else a[pp].(right := q))
    && b[0] == a[0]
    && forall i :: 0 < i < |a| && i != p && i != q && i != c && i != pp ==> b[i] == a[i]
  }

  /** The mirror image of LeftRotated. */
  ghost predicate RightRotated<D>(a: seq<Node<D>>, b: seq<Node<D>>, p: nat)
  {
    && 0 < p < |a| && 0 < a[p].left < |a| && a[a[p].left].right < |a| && a[p].parent < |a| && |b| == |a|
    && var q, c, pp := a[p].left, a[a[p].left].right, a[p].parent;
    && b[p] == a[p].(left := c, parent := q)
    && b[q] == a[q].(right := p, parent := pp)
    && (c != 0 ==> b[c] == a[c].(parent := p))
    && (pp != 0 ==> b[pp] == if a[pp].left == p then a[pp].(left := q) else a[pp].(right := q))
    && b[0] == a[0]
    && forall i :: 0 < i < |a| && i != p && i != q && i != c && i != pp ==> b[i] == a[i]
  }

  /**
   * The pointer writes of a left rotation at p (AVLTreeIterative::RotateLeft
   * and RBTree::RotateLeft write the same links): q = p.right takes p's
   * place, p becomes q's left child and q's former left child becomes p's
   * right child.  `root` follows q when p was the top.
   */
  method RotateLeftLinks<D>(a: seq<Node<D>>, root: nat, ghost t: Shape, p: nat) returns (b: seq<Node<D>>, newRoot: nat)
    requires WellLinked(a, t) && root == Root(t) && p in Ids(t)
    requires p < |a| && a[p].right != 0
    ensures LeftRotated(a, b, p)
    ensures newRoot == (if a[p].parent == 0 then a[p].right else root)
    ensures WellLinked(b, RotateLeftShape(t, p)) && newRoot == Root(RotateLeftShape(t, p))
    ensures Order(RotateLeftShape(t, p)) == Order(t) && Ids(RotateLeftShape(t, p)) == Ids(t)
    ensures Sub(RotateLeftShape(t, p), a[p].right) == RotLeftAt(Sub(t, p))
  {
    var q := a[p].right;
    RotationSites(a, t, p, q);
    b, newRoot := a, root;
    // p - c link
    b := b[p := b[p].(right := b[q].left)];
    if b[p].right != 0 {
      b := b[b[p].right := b[b[p].right].(parent := p)];
    }
    // q - parent link
    b := b[q := b[q].(parent := b[p].parent)];
    if b[q].parent == 0 {
      newRoot := q;
    } else if p == b[b[q].parent].left {
      b := b[b[q].parent := b[b[q].parent].(left := q)];
    } else {
      b := b[b[q].parent := b[b[q].parent].(right := q)];
    }
    // p - q link
    b := b[q := b[q].(left := p)];
    b := b[p := b[p].(parent := q)];
    RotateLeftProof(a, b, t, p);
  }

  /** The mirror image of RotateLeftLinks. */
  method RotateRightLinks<D>(a: seq<Node<D>>, root: nat, ghost t: Shape, p: nat) returns (b: seq<Node<D>>, newRoot: nat)
    requires WellLinked(a, t) && root == Root(t) && p in Ids(t)
    requires p < |a| && a[p].left != 0
    ensures RightRotated(a, b, p)
    ensures newRoot == (if a[p].parent == 0 then a[p].left else root)
    ensures WellLinked(b, RotateRightShape(t, p)) && newRoot == Root(RotateRightShape(t, p))
    ensures Order(RotateRightShape(t, p)) == Order(t) && Ids(RotateRightShape(t, p)) == Ids(t)
    ensures Sub(RotateRightShape(t, p), a[p].left) == RotRightAt(Sub(t, p))
  {
    var q := a[p].left;
    RotationSites(a, t, p, q);
    b, newRoot := a, root;
    // p - c link
    b := b[p := b[p].(left := b[q].right)];
    if b[p].left != 0 {
      b := b[b[p].left := b[b[p].left].(parent := p)];
    }
    // q - parent link
    b := b[q := b[q].(parent := b[p].parent)];
    if b[q].parent == 0 {
      newRoot := q;
    } else if p == b[b[q].parent].left {
      b := b[b[q].parent := b[b[q].parent].(left := q)];
    } else {
      b := b[b[q].parent := b[b[q].parent].(right := q)];
    }
    // p - q link
    b := b[q := b[q].(right := p)];
    b := b[p := b[p].(parent := q)];
    RotateRightProof(a, b, t, p);
  }

  /** Facts about the nodes a rotation at p touches: q, c and pp are where the writes go. */
  lemma RotationSites<D>(a: seq<Node<D>>, t: Shape, p: nat, q: nat)
    requires WellLinked(a, t) && p in Ids(t) && p < |a| && q != 0 && (q == a[p].right || q == a[p].left)
    ensures q in Ids(Sub(t, p)) && q in Ids(t) && q < |a| && q != p && a[q].parent == p
    ensures a[q].left < |a| && a[q].right < |a| && a[p].parent < |a|
    ensures a[q].left != 0 ==> a[q].left in Ids(Sub(t, q)) && a[q].left != p && a[q].left != q
    ensures a[q].right != 0 ==> a[q].right in Ids(Sub(t, q)) && a[q].right != p && a[q].right != q
    ensures Ids(Sub(t, q)) <= Ids(Sub(t, p)) && p !in Ids(Sub(t, q))
    ensures a[p].parent !in Ids(Sub(t, p))
    ensures p == Root(t) <==> a[p].parent == 0
    ensures 0 < p && a[p].parent != p && a[p].parent != q
    ensures a[q].left != 0 ==> a[p].parent != a[q].left
    ensures a[q].right != 0 ==> a[p].parent != a[q].right
  {
    RotationSitesBelow(a, t, p, q);
    RotationSitesAbove(a, t, p);
  }

  /** The part of RotationSites about q and its children, all inside the subtree at p. */
  lemma RotationSitesBelow<D>(a: seq<Node<D>>, t: Shape, p: nat, q: nat)
    requires WellLinked(a, t) && p in Ids(t) && p < |a| && q != 0 && (q == a[p].right || q == a[p].left)
    ensures p in Ids(Sub(t, p)) && q in Ids(Sub(t, p)) && q in Ids(t) && q < |a| && q != p && a[q].parent == p
    ensures a[q].left < |a| && a[q].right < |a|
    ensures a[q].left != 0 ==> a[q].left in Ids(Sub(t, q)) && a[q].left != p && a[q].left != q
    ensures a[q].right != 0 ==> a[q].right in Ids(Sub(t, q)) && a[q].right != p && a[q].right != q
    ensures Ids(Sub(t, q)) <= Ids(Sub(t, p)) && p !in Ids(Sub(t, q))
  {
    ChildLinks(a, t, 0, p);
    ChildLinks(a, t, 0, q);
    SubFacts(t, p);
    SubFacts(t, q);
    LinkedBounds(a, t, 0);
  }

  /** The part of RotationSites about p's parent, which lies outside the subtree at p. */
  lemma RotationSitesAbove<D>(a: seq<Node<D>>, t: Shape, p: nat)
    requires WellLinked(a, t) && p in Ids(t)
    ensures 0 < p < |a| && a[p].parent < |a| && a[p].parent !in Ids(Sub(t, p))
    ensures p == Root(t) <==> a[p].parent == 0
  {
    SubLinked(a, t, 0, p);
    LinkedBounds(a, t, 0);
    if p != Root(t) { ParentLinks(a, t, p); }
  }

  /**
   * The nodes outside the subtree at p keep their links, except that p's
   * parent now links to `now` in p's place.
   */
  lemma OutsideRelinked<D>(a: seq<Node<D>>, b: seq<Node<D>>, t: Shape, p: nat, now: nat)
    requires WellLinked(a, t) && p in Ids(t) && p < |a| && |b| == |a|
    requires forall j :: j in Outside(t, p) && j != a[p].parent && j < |a| ==> b[j] == a[j]
    requires a[p].parent != 0 ==>
      (a[p].parent < |a| &&
       b[a[p].parent] == if a[a[p].parent].left == p then a[a[p].parent].(left := now) else a[a[p].parent].(right := now))
    ensures forall j :: j in Outside(t, p) ==> Relinked(a, b, j, p, now)
  {
    LinkedBounds(a, t, 0);
    SubFacts(t, p);
    forall j | j in Outside(t, p) ensures Relinked(a, b, j, p, now) {
      if j != a[p].parent {
        if a[j].left == p { OnlyParentLinks(a, t, j, p); }
        if a[j].right == p { OnlyParentLinks(a, t, j, p); }
      } else {
        ParentLinks(a, t, p);
        ChildLinks(a, t, 0, j);
      }
    }
  }

  /** The subtree a left rotation builds is linked under p's old parent. */
  lemma RotateLeftInner<D>(a: seq<Node<D>>, b: seq<Node<D>>, S: Shape, pp: nat)
    requires Linked(a, S, pp) && Distinct(S) && S.Br? && S.right.Br? && pp !in Ids(S)
    requires LeftRotated(a, b, S.id)
    ensures Linked(b, RotLeftAt(S), pp) && Distinct(RotLeftAt(S))
    ensures Ids(RotLeftAt(S)) == Ids(S) && Order(RotLeftAt(S)) == Order(S)
  {
    var p, A, q, B, C := S.id, S.left, S.right.id, S.right.left, S.right.right;
    RotateLeftFrames(a, b, S, pp);
    LinkedBounds(a, S, pp);
    assert Linked(b, Br(p, A, B), q);
  }

  /** The three subtrees a left rotation moves keep their links in b, under their new parents. */
  lemma RotateLeftFrames<D>(a: seq<Node<D>>, b: seq<Node<D>>, S: Shape, pp: nat)
    requires Linked(a, S, pp) && Distinct(S) && S.Br? && S.right.Br? && pp !in Ids(S)
    requires LeftRotated(a, b, S.id)
    ensures Linked(b, S.left, S.id) && Linked(b, S.right.left, S.id) && Linked(b, S.right.right, S.right.id)
  {
    var p, A, q, B, C := S.id, S.left, S.right.id, S.right.left, S.right.right;
    var c := a[q].left;
    LinkedBounds(a, S, pp);
    assert Linked(a, A, p) && Linked(a, B, q) && Linked(a, C, q);
    forall i | i in Ids(A) && i < |a| ensures i < |b| && a[i].left == b[i].left && a[i].right == b[i].right && a[i].parent == b[i].parent {
      assert i != p && i != q && i != c && i != pp;
    }
    LinkedFrame(a, b, A, p);
    forall i | i in Ids(C) && i < |a| ensures i < |b| && a[i].left == b[i].left && a[i].right == b[i].right && a[i].parent == b[i].parent {
      assert i != p && i != q && i != c && i != pp;
    }
    LinkedFrame(a, b, C, q);
    forall i | i in Ids(B) && i < |a|
      ensures i < |b| && a[i].left == b[i].left && a[i].right == b[i].right && (i == Root(B) || a[i].parent == b[i].parent)
    {
      assert i != p && i != q && i != pp;
    }
    LinkedReparent(a, b, B, q, p);
  }

  /** The subtree a right rotation builds is linked under p's old parent. */
  lemma RotateRightInner<D>(a: seq<Node<D>>, b: seq<Node<D>>, S: Shape, pp: nat)
    requires Linked(a, S, pp) && Distinct(S) && S.Br? && S.left.Br? && pp !in Ids(S)
    requires RightRotated(a, b, S.id)
    ensures Linked(b, RotRightAt(S), pp) && Distinct(RotRightAt(S))
    ensures Ids(RotRightAt(S)) == Ids(S) && Order(RotRightAt(S)) == Order(S)
  {
    var p, q, A, B, C := S.id, S.left.id, S.left.left, S.left.right, S.right;
    RotateRightFrames(a, b, S, pp);
    LinkedBounds(a, S, pp);
    assert Linked(b, Br(p, B, C), q);
  }

  /** The three subtrees a right rotation moves keep their links in b, under their new parents. */
  lemma RotateRightFrames<D>(a: seq<Node<D>>, b: seq<Node<D>>, S: Shape, pp: nat)
    requires Linked(a, S, pp) && Distinct(S) && S.Br? && S.left.Br? && pp !in Ids(S)
    requires RightRotated(a, b, S.id)
    ensures Linked(b, S.left.left, S.left.id) && Linked(b, S.left.right, S.id) && Linked(b, S.right, S.id)
  {
    var p, q, A, B, C := S.id, S.left.id, S.left.left, S.left.right, S.right;
    var c := a[q].right;
    LinkedBounds(a, S, pp);
    assert Linked(a, A, q) && Linked(a, B, q) && Linked(a, C, p);
    forall i | i in Ids(A) && i < |a| ensures i < |b| && a[i].left == b[i].left && a[i].right == b[i].right && a[i].parent == b[i].parent {
      assert i != p && i != q && i != c && i != pp;
    }
    LinkedFrame(a, b, A, q);
    forall i | i in Ids(C) && i < |a| ensures i < |b| && a[i].left == b[i].left && a[i].right == b[i].right && a[i].parent == b[i].parent {
      assert i != p && i != q && i != c && i != pp;
    }
    LinkedFrame(a, b, C, p);
    forall i | i in Ids(B) && i < |a|
      ensures i < |b| && a[i].left == b[i].left && a[i].right == b[i].right && (i == Root(B) || a[i].parent == b[i].parent)
    {
      assert i != p && i != q && i != pp;
    }
    LinkedReparent(a, b, B, q, p);
  }

  lemma RotateLeftProof<D>(a: seq<Node<D>>, b: seq<Node<D>>, t: Shape, p: nat)
    requires WellLinked(a, t) && p in Ids(t) && p < |a| && a[p].right != 0
    requires LeftRotated(a, b, p)
    ensures WellLinked(b, RotateLeftShape(t, p))
    ensures Root(RotateLeftShape(t, p)) == (if a[p].parent == 0 then a[p].right else Root(t))
    ensures Order(RotateLeftShape(t, p)) == Order(t) && Ids(RotateLeftShape(t, p)) == Ids(t)
    ensures Sub(RotateLeftShape(t, p), a[p].right) == RotLeftAt(Sub(t, p))
  {
    var q := a[p].right;
    RotationSites(a, t, p, q);
    SubLinked(a, t, 0, p);
    ChildLinks(a, t, 0, p);
    RotateLeftInner(a, b, Sub(t, p), a[p].parent);
    var s := RotLeftAt(Sub(t, p));
    SubFacts(t, p);
    LinkedBounds(a, t, 0);
    forall j | j in Outside(t, p) && j != a[p].parent && j < |a| ensures b[j] == a[j] {
      assert j != p && j != q && j != a[q].left;
    }
    OutsideRelinked(a, b, t, p, q);
    ReplaceLinked(a, b, t, 0, p, s);
    ReplaceIds(t, p, s);
    OrderSplit(t, p, s);
    SubOfReplace(t, p, s);
  }

  lemma RotateRightProof<D>(a: seq<Node<D>>, b: seq<Node<D>>, t: Shape, p: nat)
    requires WellLinked(a, t) && p in Ids(t) && p < |a| && a[p].left != 0
    requires RightRotated(a, b, p)
    ensures WellLinked(b, RotateRightShape(t, p))
    ensures Root(RotateRightShape(t, p)) == (if a[p].parent == 0 then a[p].left else Root(t))
    ensures Order(RotateRightShape(t, p)) == Order(t) && Ids(RotateRightShape(t, p)) == Ids(t)
    ensures Sub(RotateRightShape(t, p), a[p].left) == RotRightAt(Sub(t, p))
  {
    var q := a[p].left;
    RotationSites(a, t, p, q);
    SubLinked(a, t, 0, p);
    ChildLinks(a, t, 0, p);
    RotateRightInner(a, b, Sub(t, p), a[p].parent);
    var s := RotRightAt(Sub(t, p));
    SubFacts(t, p);
    LinkedBounds(a, t, 0);
    forall j | j in Outside(t, p) && j != a[p].parent && j < |a| ensures b[j] == a[j] {
      assert j != p && j != q && j != a[q].right;
    }
    OutsideRelinked(a, b, t, p, q);
    ReplaceLinked(a, b, t, 0, p, s);
    ReplaceIds(t, p, s);
    OrderSplit(t, p, s);
    SubOfReplace(t, p, s);
  }

  // ---------------------------------------------------------------------------
  // Key descents

  /** One step of a key descent in an ascending shape. */
  lemma Descend<D>(a: seq<Node<D>>, t: Shape, key: int)
    requires t.Br? && Ascending(KeySeq(a, t))
    ensures Ascending(KeySeq(a, t.left)) && Ascending(KeySeq(a, t.right))
    ensures key in Elems(KeySeq(a, t)) <==>
      || key == KeyAt(a, t.id)
      || (key < KeyAt(a, t.id) && key in Elems(KeySeq(a, t.left)))
      || (key > KeyAt(a, t.id) && key in Elems(KeySeq(a, t.right)))
  {
    KeySeqBr(a, t.id, t.left, t.right);
    AscendingConcat(KeySeq(a, t.left), KeyAt(a, t.id), KeySeq(a, t.right));
    ElemsConcat(KeySeq(a, t.left), KeyAt(a, t.id), KeySeq(a, t.right));
  }

  /** Where a descent continues from a node: the subtree of the child it follows. */
  lemma DescendLinks<D>(a: seq<Node<D>>, t: Shape, node: nat)
    requires WellLinked(a, t) && node in Ids(t)
    ensures node < |a| && Sub(t, node).Br? && Sub(t, node).id == node
    ensures Sub(t, node).left == Sub(t, a[node].left) && Sub(t, node).right == Sub(t, a[node].right)
    ensures a[node].left != 0 ==> a[node].left in Ids(t)
    ensures a[node].right != 0 ==> a[node].right in Ids(t)
    ensures Sub(t, 0) == Nil && Sub(t, Root(t)) == t
  {
    ChildLinks(a, t, 0, node);
    LinkedBounds(a, t, 0);
    SubOfZero(t);
  }

  // ---------------------------------------------------------------------------
  // Attaching a new leaf

  /** The shape after a new leaf `n` for `key` is attached where the key descent of `t` ends. */
  function InsertAt<D>(a: seq<Node<D>>, t: Shape, key: int, n: nat): Shape
  {
    match t
    case Nil => Br(n, Nil, Nil)
    case Br(i, l, r) =>
      if key < KeyAt(a, i) then Br(i, InsertAt(a, l, key, n), r) else Br(i, l, InsertAt(a, r, key, n))
  }

  lemma {:induction false} InsertAtIds<D>(a: seq<Node<D>>, t: Shape, key: int, n: nat)
    ensures Ids(InsertAt(a, t, key, n)) == Ids(t) + {n}
    ensures Distinct(t) && n !in Ids(t) ==> Distinct(InsertAt(a, t, key, n))
  {
    match t
    case Nil =>
    case Br(i, l, r) =>
      InsertAtIds(a, l, key, n);
      InsertAtIds(a, r, key, n);
  }

  /**
   * Attaching the leaf keeps the keys ascending and adds exactly the new key,
   * when the key was absent.
   */
  lemma {:induction false} InsertAtKeys<D>(a: seq<Node<D>>, b: seq<Node<D>>, t: Shape, key: int, n: nat)
    requires Ascending(KeySeq(a, t)) && key !in Elems(KeySeq(a, t))
    requires forall i :: i in Ids(t) ==> KeyAt(b, i) == KeyAt(a, i)
    requires n !in Ids(t) && KeyAt(b, n) == key
    ensures Ascending(KeySeq(b, InsertAt(a, t, key, n)))
    ensures Elems(KeySeq(b, InsertAt(a, t, key, n))) == Elems(KeySeq(a, t)) + {key}
  {
    match t
    case Nil =>
      assert KeySeq(b, Br(n, Nil, Nil)) == [key];
      assert Elems([key]) == {key};
    case Br(i, l, r) =>
      var k := KeyAt(a, i);
      KeySeqBr(a, i, l, r);
      AscendingConcat(KeySeq(a, l), k, KeySeq(a, r));
      ElemsConcat(KeySeq(a, l), k, KeySeq(a, r));
      OrderIds(l);
      OrderIds(r);
      if key < k {
        InsertAtKeys(a, b, l, key, n);
        var l' := InsertAt(a, l, key, n);
        KeysOfSame(a, b, Order(r));
        KeySeqBr(b, i, l', r);
        AscendingGrowLeft(KeySeq(a, l), k, KeySeq(a, r), KeySeq(b, l'), key);
      } else {
        InsertAtKeys(a, b, r, key, n);
        var r' := InsertAt(a, r, key, n);
        KeysOfSame(a, b, Order(l));
        KeySeqBr(b, i, l, r');
        AscendingGrowRight(KeySeq(a, l), k, KeySeq(a, r), KeySeq(b, r'), key);
      }
  }

  /** One step down InsertNode's descent, from p to its child `node` on the key's side. */
  lemma InsertAtStep<D>(a: seq<Node<D>>, t: Shape, key: int, n: nat, p: nat, node: nat)
    requires WellLinked(a, t) && node in Ids(t)
    requires p == 0 ==> node == Root(t)
    requires p != 0 ==> p in Ids(t) && p < |a| && node == (if key < a[p].key then a[p].left else a[p].right)
    requires p != 0 ==> InsertAt(a, t, key, n) == Replace(t, p, InsertAt(a, Sub(t, p), key, n))
    ensures InsertAt(a, t, key, n) == Replace(t, node, InsertAt(a, Sub(t, node), key, n))
  {
    DescendLinks(a, t, node);
    if p != 0 {
      DescendLinks(a, t, p);
      var S := Sub(t, p);
      var x := InsertAt(a, Sub(t, node), key, n);
      SubFacts(t, p);
      SubFacts(t, node);
      assert KeyAt(a, p) == a[p].key;
      if key < a[p].key {
        assert InsertAt(a, S, key, n) == Br(p, x, S.right) == Replace(S, node, x);
      } else {
        assert node !in Ids(S.left);
        assert InsertAt(a, S, key, n) == Br(p, S.left, x) == Replace(S, node, x);
      }
      ReplaceNested(t, p, node, x);
    } else {
      assert t.Br?;
    }
  }

  /**
   * The descent of InsertNode: from the root, left when the key is smaller
   * and right otherwise, until a node holds the key or nullptr is reached.
   * `parent` is then the last node visited, under which a leaf for the key
   * hangs on the side the key selects (nullptr for the empty tree).
   */
  method FindParent<D>(a: seq<Node<D>>, ghost t: Shape, r: nat, key: int) returns (parent: nat, found: bool)
    requires 0 < |a| && WellLinked(a, t) && r == Root(t) && Ascending(KeySeq(a, t))
    ensures found <==> key in Elems(KeySeq(a, t))
    ensures !found ==> parent < |a| && (parent == 0 <==> t == Nil)
    ensures !found && parent != 0 ==>
      && parent in Ids(t) && (if key < a[parent].key then a[parent].left else a[parent].right) == 0
      && InsertAt(a, t, key, |a|) == Replace(t, parent, InsertAt(a, Sub(t, parent), key, |a|))
  {
    LinkedBounds(a, t, 0);
    SubOfZero(t);
    parent := 0;
    var node := r;
    while node != 0
      invariant node == 0 || node in Ids(t)
      invariant parent == 0 ==> node == r
      invariant parent != 0 ==> parent in Ids(t) && parent < |a| && node == (if key < a[parent].key then a[parent].left else a[parent].right)
      invariant parent != 0 ==> InsertAt(a, t, key, |a|) == Replace(t, parent, InsertAt(a, Sub(t, parent), key, |a|))
      invariant Ascending(KeySeq(a, Sub(t, node)))
      invariant key in Elems(KeySeq(a, t)) <==> key in Elems(KeySeq(a, Sub(t, node)))
      decreases Sub(t, node)
    {
      DescendLinks(a, t, node);
      Descend(a, Sub(t, node), key);
      if key == a[node].key {
        assert KeyAt(a, node) == key;
        return parent, true;
      }
      InsertAtStep(a, t, key, |a|, parent, node);
      parent := node;
      if key < a[node].key {
        node := a[node].left;
      } else {
        node := a[node].right;
      }
    }
    assert parent == 0 ==> t == Nil;
    found := false;
  }

  /**
   * The writes that attach the new leaf n = |a| under p (or as the root when
   * p is 0) link the shape InsertAt describes, once the descent has ended
   * at an empty child of p.
   */
  lemma AttachLinked<D>(a: seq<Node<D>>, b: seq<Node<D>>, t: Shape, key: int, p: nat)
    requires WellLinked(a, t) && 0 < |a| && p < |a|
    requires p == 0 ==> t == Nil
    requires p != 0 ==> p in Ids(t) && (if key < a[p].key then a[p].left else a[p].right) == 0
    requires p != 0 ==> InsertAt(a, t, key, |a|) == Replace(t, p, InsertAt(a, Sub(t, p), key, |a|))
    requires |b| == |a| + 1 && b[|a|].key == key && b[|a|].left == 0 && b[|a|].right == 0 && b[|a|].parent == p
    requires forall i :: 0 <= i < |a| && i != p ==> b[i] == a[i]
    requires p != 0 ==> b[p] == if key < a[p].key then a[p].(left := |a|) else a[p].(right := |a|)
    ensures WellLinked(b, InsertAt(a, t, key, |a|))
    ensures Root(InsertAt(a, t, key, |a|)) == if p == 0 then |a| else Root(t)
    ensures forall i :: i in Ids(t) ==> KeyAt(b, i) == KeyAt(a, i)
  {
    LinkedBounds(a, t, 0);
    if p != 0 {
      AttachSub(a, b, t, key, p);
      SubFacts(t, p);
      var s := InsertAt(a, Sub(t, p), key, |a|);
      forall j | j in Outside(t, p) ensures Relinked(a, b, j, p, p) {
        assert j != p;
      }
      ReplaceLinked(a, b, t, 0, p, s);
      ReplaceIds(t, p, s);
    }
  }

  /** The subtree at p with the new leaf hung under p is linked in b, below p's parent. */
  lemma AttachSub<D>(a: seq<Node<D>>, b: seq<Node<D>>, t: Shape, key: int, p: nat)
    requires WellLinked(a, t) && 0 < |a| && p < |a|
    requires p == 0 ==> t == Nil
    requires p != 0 ==> p in Ids(t) && (if key < a[p].key then a[p].left else a[p].right) == 0
    requires p != 0 ==> InsertAt(a, t, key, |a|) == Replace(t, p, InsertAt(a, Sub(t, p), key, |a|))
    requires |b| == |a| + 1 && b[|a|].key == key && b[|a|].left == 0 && b[|a|].right == 0 && b[|a|].parent == p
    requires forall i :: 0 <= i < |a| && i != p ==> b[i] == a[i]
    requires p != 0 ==> b[p] == if key < a[p].key then a[p].(left := |a|) else a[p].(right := |a|)
    requires p != 0
    ensures var s := InsertAt(a, Sub(t, p), key, |a|);
      && Linked(b, s, a[p].parent) && Distinct(s) && Ids(s) == Ids(Sub(t, p)) + {|a|} && Root(s) == p
      && Ids(s) !! Outside(t, p)
  {
    var n := |a|;
    LinkedBounds(a, t, 0);
    DescendLinks(a, t, p);
    SubLinked(a, t, 0, p);
    SubFacts(t, p);
    var S := Sub(t, p);
    var leaf := Br(n, Nil, Nil);
    var s := InsertAt(a, S, key, n);
    assert KeyAt(a, p) == a[p].key;
    if key < a[p].key {
      assert S.left == Nil && s == Br(p, leaf, S.right);
      LinkedFrame(a, b, S.right, p);
    } else {
      assert S.right == Nil && s == Br(p, S.left, leaf);
      LinkedFrame(a, b, S.left, p);
    }
    assert Linked(b, s, a[p].parent);
    assert Ids(s) == Ids(S) + {n};
  }

  // ---------------------------------------------------------------------------
  // Cutting out a node with at most one child

  /** The leftmost id of a shape: where FindMin's descent stops. */
  function Leftmost(t: Shape): nat
  {
    match t
    case Nil => 0
    case Br(i, l, r) => if l.Nil? then i else Leftmost(l)
  }

  lemma {:induction false} LeftmostFacts(t: Shape)
    requires t.Br? && Distinct(t)
    ensures Leftmost(t) in Ids(t) && Sub(t, Leftmost(t)).Br? && Sub(t, Leftmost(t)).left == Nil
    ensures |Order(t)| > 0 && Order(t)[0] == Leftmost(t)
  {
    match t
    case Br(i, l, r) =>
      if l.Br? {
        LeftmostFacts(l);
        SubFacts(l, Leftmost(l));
      }
  }

  /** The child that takes y's place when y, which has at most one child, is cut out. */
  function OnlyChild<D>(a: seq<Node<D>>, y: nat): nat
  {
    if y < |a| then (if a[y].left == 0 then a[y].right else a[y].left) else 0
  }

  /** The shape once y is cut out and its only child takes its place. */
  function SpliceShape<D>(a: seq<Node<D>>, t: Shape, y: nat): Shape
  {
    Replace(t, y, Sub(t, OnlyChild(a, y)))
  }

  /** y's only child subtree, and where it hangs. */
  lemma OnlyChildFacts<D>(a: seq<Node<D>>, t: Shape, y: nat)
    requires WellLinked(a, t) && y in Ids(t) && y < |a| && (a[y].left == 0 || a[y].right == 0)
    ensures Linked(a, Sub(t, OnlyChild(a, y)), y) && Distinct(Sub(t, OnlyChild(a, y)))
    ensures Ids(Sub(t, y)) == Ids(Sub(t, OnlyChild(a, y))) + {y} && y !in Ids(Sub(t, OnlyChild(a, y)))
    ensures Root(Sub(t, OnlyChild(a, y))) == OnlyChild(a, y)
    ensures Order(Sub(t, y)) == if a[y].left == 0 then [y] + Order(Sub(t, a[y].right)) else Order(Sub(t, a[y].left)) + [y]
  {
    ChildLinks(a, t, 0, y);
    SubLinked(a, t, 0, y);
    var S := Sub(t, y);
    assert Linked(a, S.left, y) && Linked(a, S.right, y) && Distinct(S.left) && Distinct(S.right);
    if a[y].left == 0 {
      assert S.left == Nil && Sub(t, OnlyChild(a, y)) == S.right;
      assert Order(S) == [y] + Order(S.right);
    } else {
      assert S.right == Nil && Sub(t, OnlyChild(a, y)) == S.left;
      assert Order(S) == Order(S.left) + [y];
    }
  }

  /**
   * The writes that cut out y (its only child x takes y's parent, and the
   * parent's link to y now names x, or x becomes the root) link the spliced
   * shape, which has lost exactly y.
   */
  lemma SpliceLinked<D>(a: seq<Node<D>>, b: seq<Node<D>>, t: Shape, y: nat)
    requires WellLinked(a, t) && y in Ids(t) && y < |a| && (a[y].left == 0 || a[y].right == 0)
    requires |b| == |a| && a[y].parent < |a| && OnlyChild(a, y) < |a|
    requires OnlyChild(a, y) != 0 ==> b[OnlyChild(a, y)] == a[OnlyChild(a, y)].(parent := a[y].parent)
    requires a[y].parent != 0 ==>
      (b[a[y].parent] ==
       if a[a[y].parent].left == y then a[a[y].parent].(left := OnlyChild(a, y)) else a[a[y].parent].(right := OnlyChild(a, y)))
    requires forall i :: 0 < i < |a| && i != OnlyChild(a, y) && i != a[y].parent ==> b[i] == a[i]
    ensures WellLinked(b, SpliceShape(a, t, y))
    ensures Root(SpliceShape(a, t, y)) == if a[y].parent == 0 then OnlyChild(a, y) else Root(t)
    ensures Ids(SpliceShape(a, t, y)) == Ids(t) - {y}
  {
    var x, pp := OnlyChild(a, y), a[y].parent;
    var X := Sub(t, x);
    OnlyChildFacts(a, t, y);
    SubLinked(a, t, 0, y);
    SubFacts(t, y);
    LinkedBounds(a, t, 0);
    LinkedBounds(a, X, y);
    forall i | i in Ids(X) && i < |a|
      ensures i < |b| && a[i].left == b[i].left && a[i].right == b[i].right && (i == Root(X) || a[i].parent == b[i].parent)
    {
      assert i != pp;
    }
    LinkedReparent(a, b, X, y, pp);
    forall j | j in Outside(t, y) && j != pp && j < |a| ensures b[j] == a[j] {
      assert j != x;
    }
    OutsideRelinked(a, b, t, y, x);
    ReplaceLinked(a, b, t, 0, y, X);
    ReplaceIds(t, y, X);
    if pp != 0 { ParentLinks(a, t, y); }
  }

  /** Cutting out y drops it from the in-order sequence and moves nothing else. */
  lemma SpliceOrder<D>(a: seq<Node<D>>, t: Shape, y: nat) returns (k: nat)
    requires WellLinked(a, t) && y in Ids(t) && y < |a| && (a[y].left == 0 || a[y].right == 0)
    ensures k < |Order(t)| && Order(t)[k] == y
    ensures Order(SpliceShape(a, t, y)) == Order(t)[..k] + Order(t)[k + 1..]
  {
    OnlyChildFacts(a, t, y);
    var X := Sub(t, OnlyChild(a, y));
    OrderSplit(t, y, X);
    k := DropOne(Before(t, y), y, Order(X), After(t, y), a[y].left == 0, Order(Sub(t, y)));
  }

  /** Dropping y from B + ([y] + O) + A, or from B + (O + [y]) + A, leaves B + O + A. */
  lemma DropOne(B: seq<nat>, y: nat, O: seq<nat>, A: seq<nat>, first: bool, S: seq<nat>) returns (k: nat)
    requires S == if first then [y] + O else O + [y]
    ensures k < |B + S + A| && (B + S + A)[k] == y
    ensures (B + S + A)[..k] + (B + S + A)[k + 1..] == B + O + A
  {
    var w := B + S + A;
    if first {
      k := |B|;
      assert w[..k] == B;
      assert w[k + 1..] == O + A;
    } else {
      k := |B| + |O|;
      assert w[..k] == B + O;
      assert w[k + 1..] == A;
    }
  }

  /** A node with a right child is followed in in-order by the leftmost node of that subtree. */
  lemma SuccessorOrder<D>(a: seq<Node<D>>, t: Shape, z: nat) returns (k: nat)
    requires WellLinked(a, t) && z in Ids(t) && z < |a| && a[z].right != 0
    ensures k + 1 < |Order(t)| && Order(t)[k] == z && Order(t)[k + 1] == Leftmost(Sub(t, a[z].right))
  {
    ChildLinks(a, t, 0, z);
    k := SuccessorInOrder(t, z);
  }

  /** The same on the shape alone. */
  lemma SuccessorInOrder(t: Shape, z: nat) returns (k: nat)
    requires Distinct(t) && z in Ids(t) && Sub(t, z).Br? && Sub(t, z).id == z && Sub(t, z).right.Br?
    ensures k + 1 < |Order(t)| && Order(t)[k] == z && Order(t)[k + 1] == Leftmost(Sub(t, z).right)
  {
    SubFacts(t, z);
    var S := Sub(t, z);
    var R := S.right;
    assert Distinct(R);
    LeftmostFacts(R);
    OrderSplit(t, z, S);
    assert Order(S) == Order(S.left) + [z] + Order(R);
    k := NextAfter(Before(t, z), Order(S.left), z, Order(R), After(t, z));
  }

  /** In B + (L + [z] + O) + A with O non-empty, z sits at |B| + |L| and O's head right after it. */
  lemma NextAfter(B: seq<nat>, L: seq<nat>, z: nat, O: seq<nat>, A: seq<nat>) returns (k: nat)
    requires |O| > 0
    ensures k + 1 < |B + (L + [z] + O) + A|
    ensures (B + (L + [z] + O) + A)[k] == z && (B + (L + [z] + O) + A)[k + 1] == O[0]
  {
    k := |B| + |L|;
    assert B + (L + [z] + O) + A == (B + L + [z]) + (O + A);
  }

  /**
   * The keys along an id sequence after one id is dropped: at position m the
   * key of the dropped successor (k = m + 1) was copied in, or the id at m
   * itself was dropped (k = m).
   */
  lemma KeysAfterDrop<D>(a: seq<Node<D>>, b: seq<Node<D>>, o: seq<nat>, k: nat, m: nat)
    requires m <= k <= m + 1 && k < |o|
    requires forall j :: 0 <= j < |o| && j != m ==> KeyAt(b, o[j]) == KeyAt(a, o[j])
    requires KeyAt(b, o[m]) == KeyAt(a, o[k])
    ensures KeysOf(b, o[..k] + o[k + 1..]) == KeysOf(a, o)[..m] + KeysOf(a, o)[m + 1..]
  {
    var o' := o[..k] + o[k + 1..];
    var s := KeysOf(a, o);
    forall j | 0 <= j < |o'| ensures KeysOf(b, o')[j] == (s[..m] + s[m + 1..])[j] {
      if j < m {
        assert o'[j] == o[j];
      } else if j == m && k == m + 1 {
        assert o'[j] == o[m];
      } else {
        assert o'[j] == o[j + 1];
      }
    }
  }

  /**
   * Removing the node z that holds a key: the node y that is cut out is z
   * itself when z has at most one child, and otherwise z's successor, whose
   * key is copied into z.  Either way the keys stay ascending and lose
   * exactly z's key.
   */
  lemma RemoveKeys<D>(a: seq<Node<D>>, b: seq<Node<D>>, t: Shape, z: nat, y: nat)
    requires WellLinked(a, t) && Ascending(KeySeq(a, t)) && z in Ids(t) && z < |a|
    requires y == if a[z].left == 0 || a[z].right == 0 then z else Leftmost(Sub(t, a[z].right))
    requires forall i :: i in Ids(t) && i != z ==> KeyAt(b, i) == KeyAt(a, i)
    requires KeyAt(b, z) == KeyAt(a, y)
    ensures y in Ids(t) && y < |a| && (a[y].left == 0 || a[y].right == 0)
    ensures Ascending(KeySeq(b, SpliceShape(a, t, y)))
    ensures Elems(KeySeq(b, SpliceShape(a, t, y))) == Elems(KeySeq(a, t)) - {KeyAt(a, z)}
  {
    LinkedBounds(a, t, 0);
    var o := Order(t);
    OrderIds(t);
    OrderDistinct(t);
    var m: nat;
    if a[z].left == 0 || a[z].right == 0 {
      assert y == z;
      m := SpliceOrder(a, t, y);
    } else {
      m := SuccessorSite(a, t, z);
    }
    var k := SpliceOrder(a, t, y);
    forall j | 0 <= j < |o| && j != m ensures KeyAt(b, o[j]) == KeyAt(a, o[j]) {
      assert o[j] in Ids(t) && o[j] != z;
    }
    KeysAfterDrop(a, b, o, k, m);
    AscendingDrop(KeySeq(a, t), m);
  }

  /** The successor a two-child removal cuts out: it has no left child and follows z in in-order. */
  lemma SuccessorSite<D>(a: seq<Node<D>>, t: Shape, z: nat) returns (m: nat)
    requires WellLinked(a, t) && z in Ids(t) && z < |a| && a[z].left != 0 && a[z].right != 0
    ensures Leftmost(Sub(t, a[z].right)) in Ids(t) && Leftmost(Sub(t, a[z].right)) < |a|
    ensures a[Leftmost(Sub(t, a[z].right))].left == 0
    ensures m + 1 < |Order(t)| && Order(t)[m] == z && Order(t)[m + 1] == Leftmost(Sub(t, a[z].right))
  {
    LinkedBounds(a, t, 0);
    ChildLinks(a, t, 0, z);
    SubFacts(t, z);
    var R := Sub(t, a[z].right);
    SubFacts(t, a[z].right);
    LeftmostFacts(R);
    var y := Leftmost(R);
    SubInner(t, a[z].right, y);
    ChildLinks(a, t, 0, y);
    m := SuccessorOrder(a, t, z);
  }

  // ---------------------------------------------------------------------------
  // Writes that leave the links alone

  /** Changing only balancing data (heights, colours) keeps the links and the key sequence. */
  lemma DataChanged<D, E>(a: seq<Node<D>>, b: seq<Node<E>>, t: Shape)
    requires WellLinked(a, t) && |b| == |a|
    requires forall i :: 0 <= i < |a| ==> b[i].key == a[i].key && b[i].left == a[i].left && b[i].right == a[i].right && b[i].parent == a[i].parent
    ensures WellLinked(b, t) && KeySeq(b, t) == KeySeq(a, t)
  {
    LinkedFrame(a, b, t, 0);
    KeysOfSame(a, b, Order(t));
  }

  /** A rotation rewrites links only: keys and balancing data stay where they were. */
  lemma RotatedFields<D>(a: seq<Node<D>>, b: seq<Node<D>>, p: nat)
    requires LeftRotated(a, b, p) || RightRotated(a, b, p)
    ensures |b| == |a| && forall i :: 0 <= i < |a| ==> b[i].key == a[i].key && b[i].data == a[i].data
  {
  }

  /** After a rotation the arena holds the same key sequence for the rotated shape. */
  lemma RotatedKeys<D>(a: seq<Node<D>>, b: seq<Node<D>>, t: Shape, p: nat, t': Shape)
    requires LeftRotated(a, b, p) || RightRotated(a, b, p)
    requires Order(t') == Order(t)
    ensures KeySeq(b, t') == KeySeq(a, t)
  {
    RotatedFields(a, b, p);
    forall i | i in Order(t) ensures KeyAt(b, i) == KeyAt(a, i) { }
    KeysOfSame(b, a, Order(t));
  }

  /** The nodes a splice of y touches: its only child x below it and its parent above it. */
  lemma SpliceSites<D>(a: seq<Node<D>>, t: Shape, y: nat)
    requires WellLinked(a, t) && y in Ids(t)
    ensures 0 < y < |a| && OnlyChild(a, y) < |a| && a[y].parent < |a|
    ensures OnlyChild(a, y) != 0 ==> OnlyChild(a, y) in Ids(t) && OnlyChild(a, y) != y && OnlyChild(a, y) != a[y].parent
    ensures a[y].parent != 0 ==> a[y].parent in Ids(t) && a[y].parent != y
    ensures a[y].parent == 0 <==> y == Root(t)
  {
    ChildLinks(a, t, 0, y);
    SubLinked(a, t, 0, y);
    SubFacts(t, y);
    LinkedBounds(a, t, 0);
  }

  /** A write to a slot outside the shape changes neither its links nor its key sequence. */
  lemma WriteOutside<D>(a: seq<Node<D>>, b: seq<Node<D>>, t: Shape, y: nat)
    requires WellLinked(a, t) && y !in Ids(t) && |b| == |a|
    requires forall i :: 0 <= i < |a| && i != y ==> b[i] == a[i]
    ensures WellLinked(b, t) && KeySeq(b, t) == KeySeq(a, t)
  {
    LinkedFrame(a, b, t, 0);
    OrderIds(t);
    KeysOfSame(a, b, Order(t));
  }
}
