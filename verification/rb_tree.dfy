/**
 * The red-black tree (BSTree/RBTree.cpp) with a shared sentinel `nil`.
 * Nodes live in an arena whose slot 0 is the sentinel: every missing child
 * and the root's parent are slot 0, the sentinel is Black, and removal may
 * write its parent link.  The colouring is checked through local facts at
 * each node, against a ghost table of black heights; LocalColouring
 * turns them into the familiar properties of the whole tree.
 */
module RedBlack {
  import opened SortedSeq
  import opened LinkedTree

  datatype Color = Black | Red

  /** The colour of slot i; the sentinel is slot 0. */
  function Col(a: seq<Node<Color>>, i: nat): Color
  {
    if i < |a| then a[i].data else Black
  }

  /** The recorded black height of slot i. */
  function Bh(bh: seq<nat>, i: nat): nat
  {
    if i < |bh| then bh[i] else 0
  }

  /** What the subtree hanging at i adds to a path from above: its black height plus i itself when Black. */
  function Contrib(a: seq<Node<Color>>, bh: seq<nat>, i: nat): nat
  {
    Bh(bh, i) + (if Col(a, i) == Black then 1 else 0)
  }

  /** Both children of i add the black height recorded for i. */
  ghost predicate BlackOK(a: seq<Node<Color>>, bh: seq<nat>, i: nat)
  {
    i < |a| && Contrib(a, bh, a[i].left) == Bh(bh, i) && Contrib(a, bh, a[i].right) == Bh(bh, i)
  }

  /**
   * A Red node i has Black children, except that a child `ce` may be Red,
   * and node `se` is exempt altogether (the node a fixup is working on).
   */
  ghost predicate RedOK(a: seq<Node<Color>>, i: nat, ce: nat, se: nat)
  {
    && i < |a|
    && (Col(a, i) == Red && i != se ==>
         (Col(a, a[i].left) == Black || a[i].left == ce) && (Col(a, a[i].right) == Black || a[i].right == ce))
  }

  /** The sentinel is Black with black height 0, and every slot has a recorded black height. */
  ghost predicate Sentinel(a: seq<Node<Color>>, bh: seq<nat>)
  {
    |a| >= 1 && |bh| == |a| && bh[0] == 0 && a[0].data == Black
  }

  /** Each child of a node of S names that node as its parent and differs from its sibling and from the node. */
  ghost predicate Parented<D>(a: seq<Node<D>>, S: set<nat>)
  {
    && 0 !in S
    && forall i :: i in S ==>
      && i < |a|
      && (a[i].left != 0 ==> a[i].left < |a| && a[a[i].left].parent == i)
      && (a[i].right != 0 ==> a[i].right < |a| && a[a[i].right].parent == i)
      && (a[i].left != 0 ==> a[i].left != a[i].right)
      && a[i].left != i && a[i].right != i
  }

  /** The links of a whole tree give Parented over its ids. */
  lemma LinkedParented<D>(a: seq<Node<D>>, t: Shape)
    requires WellLinked(a, t)
    ensures Parented(a, Ids(t))
  {
    forall i | i in Ids(t)
      ensures i != 0 && i < |a|
      ensures a[i].left != 0 ==> a[i].left < |a| && a[a[i].left].parent == i
      ensures a[i].right != 0 ==> a[i].right < |a| && a[a[i].right].parent == i
      ensures a[i].left != 0 ==> a[i].left != a[i].right
      ensures a[i].left != i && a[i].right != i
    {
      ChildLinks(a, t, 0, i);
    }
  }

  // ---------------------------------------------------------------------------
  // The red-black properties of a whole tree

  /** Black nodes on the leftmost path of t, counting the sentinel at its end. */
  function BlackHeight(a: seq<Node<Color>>, t: Shape): nat
  {
    match t
    case Nil => 1
    case Br(i, l, r) => BlackHeight(a, l) + (if Col(a, i) == Black then 1 else 0)
  }

  /** Every path from a node down to the sentinel passes the same number of black nodes. */
  ghost predicate BlackBalanced(a: seq<Node<Color>>, t: Shape)
  {
    match t
    case Nil => true
    case Br(i, l, r) => BlackHeight(a, l) == BlackHeight(a, r) && BlackBalanced(a, l) && BlackBalanced(a, r)
  }

  /** No Red node has a Red child. */
  ghost predicate NoRedRed(a: seq<Node<Color>>, t: Shape)
  {
    match t
    case Nil => true
    case Br(i, l, r) =>
      && (Col(a, i) == Red ==> Col(a, Root(l)) == Black && Col(a, Root(r)) == Black)
      && NoRedRed(a, l) && NoRedRed(a, r)
  }

  /** The red-black properties: sentinel and root Black, no red-red link, equal black heights. */
  ghost predicate RedBlackTree(a: seq<Node<Color>>, t: Shape)
  {
    Col(a, 0) == Black && Col(a, Root(t)) == Black && BlackBalanced(a, t) && NoRedRed(a, t)
  }

  /**
   * The local facts at every node give the red-black properties of the
   * whole tree, and the recorded black height of the top is its real one.
   */
  lemma {:induction false} LocalColouring(a: seq<Node<Color>>, bh: seq<nat>, t: Shape, pid: nat)
    requires Sentinel(a, bh) && Linked(a, t, pid)
    requires forall i :: i in Ids(t) ==> BlackOK(a, bh, i) && RedOK(a, i, 0, 0)
    ensures BlackBalanced(a, t) && NoRedRed(a, t)
    ensures BlackHeight(a, t) == Contrib(a, bh, Root(t))
  {
    match t
    case Nil =>
    case Br(i, l, r) =>
      LocalColouring(a, bh, l, i);
      LocalColouring(a, bh, r, i);
      assert BlackOK(a, bh, i) && RedOK(a, i, 0, 0);
  }

  // ---------------------------------------------------------------------------
  // InsertFixup, one case at a time, on the arena

  /**
   * The local facts at every node of S: balanced black heights, and Red
   * nodes with Black children except that z may be a Red child of a Red
   * node.  With z = 0 these are the red-black facts; InsertFixup works on
   * the Red node z.
   */
  ghost predicate LocallyRedBlack(a: seq<Node<Color>>, bh: seq<nat>, S: set<nat>, z: nat)
  {
    && Sentinel(a, bh)
    && (forall i :: i in S ==> BlackOK(a, bh, i) && RedOK(a, i, z, 0))
  }

  /** The red-black facts without exception allow any exception. */
  lemma AnyException(a: seq<Node<Color>>, bh: seq<nat>, S: set<nat>, z: nat)
    requires LocallyRedBlack(a, bh, S, 0)
    ensures LocallyRedBlack(a, bh, S, z)
  {
    forall i | i in S ensures RedOK(a, i, z, 0) {
      assert RedOK(a, i, 0, 0);
    }
  }

  /**
   * A node that keeps its children, its colour and its black height, and
   * whose children keep theirs, keeps its local facts; the exemptions may
   * change when none of them applied to it.
   */
  lemma LocalKept(a: seq<Node<Color>>, bh: seq<nat>, b: seq<Node<Color>>, bh': seq<nat>, i: nat,
                  ce: nat, se: nat, ce': nat, se': nat)
    requires BlackOK(a, bh, i) && RedOK(a, i, ce, se)
    requires i < |b| && b[i].left == a[i].left && b[i].right == a[i].right
    requires Col(b, i) == Col(a, i) && Bh(bh', i) == Bh(bh, i)
    requires Col(b, a[i].left) == Col(a, a[i].left) && Bh(bh', a[i].left) == Bh(bh, a[i].left)
    requires Col(b, a[i].right) == Col(a, a[i].right) && Bh(bh', a[i].right) == Bh(bh, a[i].right)
    requires i != se && a[i].left != ce && a[i].right != ce
    ensures BlackOK(b, bh', i) && RedOK(b, i, ce', se')
  {
  }

  /** b keeps the keys and links of a and the colours outside {x, y, w}. */
  ghost predicate Recoloured(a: seq<Node<Color>>, b: seq<Node<Color>>, x: nat, y: nat, w: nat)
  {
    && |b| == |a|
    && (forall j: nat :: j < |a| ==> b[j].key == a[j].key && SameLinks(a[j], b[j]))
    && (forall j: nat :: j != x && j != y && j != w ==> Col(b, j) == Col(a, j))
  }

  /** bh' keeps the black heights of bh outside {x, y}. */
  ghost predicate Reheighted(bh: seq<nat>, bh': seq<nat>, x: nat, y: nat)
  {
    |bh'| == |bh| && forall j: nat :: j != x && j != y ==> Bh(bh', j) == Bh(bh, j)
  }

  /**
   * Recolouring x, y and w, rotating (which moves no colour) and changing
   * the black heights of x and y leave every other node's colour and
   * contribution as they were.
   */
  lemma Unmoved(a: seq<Node<Color>>, a1: seq<Node<Color>>, b: seq<Node<Color>>, bh: seq<nat>, bh': seq<nat>, x: nat, y: nat, w: nat)
    requires Recoloured(a, a1, x, y, w) && (forall j: nat :: Col(b, j) == Col(a1, j)) && Reheighted(bh, bh', x, y)
    ensures forall j: nat :: j != x && j != y && j != w ==> Col(b, j) == Col(a, j) && Contrib(b, bh', j) == Contrib(a, bh, j)
  {
  }

  /** Raising the black height of one slot g other than the sentinel's. */
  lemma Raise(bh: seq<nat>, g: nat, bh': seq<nat>)
    requires g < |bh| && g != 0 && bh[0] == 0 && bh' == bh[g := bh[g] + 1]
    ensures Reheighted(bh, bh', g, g) && Bh(bh', g) == Bh(bh, g) + 1 && bh'[0] == 0
  {
  }

  /** Lowering the black height of one slot g other than the sentinel's. */
  lemma Lower(bh: seq<nat>, g: nat, bh': seq<nat>)
    requires g < |bh| && g != 0 && bh[g] >= 1 && bh[0] == 0 && bh' == bh[g := bh[g] - 1]
    ensures Reheighted(bh, bh', g, g) && Bh(bh', g) + 1 == Bh(bh, g) && bh'[0] == 0
  {
  }

  /** The write `i->color = c`. */
  function Paint(a: seq<Node<Color>>, i: nat, c: Color): (b: seq<Node<Color>>)
    ensures |b| == |a| && (i < |a| ==> Col(b, i) == c)
    ensures forall j: nat :: j != i ==> Col(b, j) == Col(a, j)
  {
    if i < |a| then a[i := a[i].(data := c)] else a
  }

  /** Writing the colours of x, y and w, in that order, recolours exactly those. */
  lemma Recolour(a: seq<Node<Color>>, x: nat, cx: Color, y: nat, cy: Color, w: nat, cw: Color)
    requires x < |a| && y < |a| && w < |a|
    ensures var d := Paint(Paint(Paint(a, x, cx), y, cy), w, cw);
            && Recoloured(a, d, x, y, w)
            && Col(d, w) == cw && (y != w ==> Col(d, y) == cy) && (x != y && x != w ==> Col(d, x) == cx)
  {
  }

  /** Writing the colours of x and y, in that order, recolours exactly those. */
  lemma Recolour2(a: seq<Node<Color>>, x: nat, cx: Color, y: nat, cy: Color)
    requires x < |a| && y < |a|
    ensures var d := Paint(Paint(a, x, cx), y, cy);
            && Recoloured(a, d, x, y, y) && Col(d, y) == cy && (x != y ==> Col(d, x) == cx)
  {
  }

  /**
   * Case 1: the parent p and the uncle u are Red.  They turn Black, the
   * grandparent gp turns Red and its black height grows by one; the work
   * moves to gp.
   */
  lemma InsertCase1(a: seq<Node<Color>>, bh: seq<nat>, S: set<nat>, z: nat, p: nat, u: nat, gp: nat,
                    b: seq<Node<Color>>, bh': seq<nat>)
    requires LocallyRedBlack(a, bh, S, z) && Parented(a, S)
    requires z in S && p in S && u in S && gp in S
    requires a[z].parent == p && a[p].parent == gp && a[u].parent == gp
    requires a[p].left == z || a[p].right == z
    requires (a[gp].left == p && a[gp].right == u) || (a[gp].right == p && a[gp].left == u)
    requires a[p].data == Red && a[u].data == Red
    requires z != p && z != gp && p != gp && u != p && u != gp && u != z
    requires a[gp].parent != z && a[gp].parent != p && a[gp].parent != u && a[gp].parent != gp
    requires Recoloured(a, b, p, u, gp) && Col(b, p) == Black && Col(b, u) == Black && Col(b, gp) == Red
    requires Reheighted(bh, bh', gp, gp) && Bh(bh', gp) == Bh(bh, gp) + 1 && bh'[0] == 0
    ensures LocallyRedBlack(b, bh', S, gp)
  {
    var ggp := a[gp].parent;
    assert Col(a, gp) == Black by {
      assert RedOK(a, gp, z, 0);
    }
    assert Col(b, 0) == Col(a, 0);
    forall i | i in S ensures BlackOK(b, bh', i) && RedOK(b, i, gp, 0) {
      assert BlackOK(a, bh, i) && RedOK(a, i, z, 0);
      assert SameLinks(a[i], b[i]);
      if i == gp {
        assert BlackOK(a, bh, p) && RedOK(a, p, z, 0);
      } else if i == p || i == u {
        assert a[i].left != gp && a[i].right != gp;
        assert a[i].left != u && a[i].right != u && a[i].left != p && a[i].right != p;
      } else if i == ggp {
        assert a[i].left != p && a[i].right != p && a[i].left != u && a[i].right != u;
        assert a[i].left != z && a[i].right != z;
      } else {
        assert a[i].left != p && a[i].right != p && a[i].left != u && a[i].right != u;
        assert a[i].left != gp && a[i].right != gp;
        assert a[i].left != z && a[i].right != z;
        LocalKept(a, bh, b, bh', i, z, 0, gp, 0);
      }
    }
  }

  /** Rotations keep every colour, so they keep every Contrib. */
  lemma RotatedColours(a: seq<Node<Color>>, b: seq<Node<Color>>, bh: seq<nat>, p: nat)
    requires LeftRotated(a, b, p) || RightRotated(a, b, p)
    ensures forall j: nat :: Col(b, j) == Col(a, j) && Contrib(b, bh, j) == Contrib(a, bh, j)
  {
    RotatedFields(a, b, p);
    forall j: nat ensures Col(b, j) == Col(a, j) {
      if j < |a| { assert b[j].data == a[j].data; }
    }
  }

  /**
   * Case 2, parent on the left: z is its parent p's right child.  The left
   * rotation at p puts z in p's place, and the work moves to p, now z's left
   * child.
   */
  lemma InsertCase2Left(a: seq<Node<Color>>, bh: seq<nat>, S: set<nat>, z: nat, p: nat, gp: nat, b: seq<Node<Color>>)
    requires LocallyRedBlack(a, bh, S, z) && Parented(a, S)
    requires z in S && p in S && gp in S
    requires a[z].parent == p && a[p].parent == gp && a[p].right == z && a[gp].left == p
    requires a[p].data == Red && a[z].data == Red
    requires z != gp && a[gp].parent != z
    requires LeftRotated(a, b, p)
    ensures LocallyRedBlack(b, bh, S, p)
  {
    RotatedColours(a, b, bh, p);
    var c := a[z].left;
    forall i | i in S ensures BlackOK(b, bh, i) && RedOK(b, i, p, 0) {
      assert BlackOK(a, bh, i) && RedOK(a, i, z, 0);
      if i == p {
        assert BlackOK(a, bh, z) && RedOK(a, z, z, 0);
      } else if i == z {
        assert BlackOK(a, bh, p) && RedOK(a, p, z, 0);
      } else if i == gp {
        assert BlackOK(a, bh, p);
      } else {
        assert b[i].left == a[i].left && b[i].right == a[i].right;
        assert a[i].left != z && a[i].right != z;
      }
    }
  }

  /**
   * Case 3, parent on the left: z is p's left child and the uncle is Black.
   * p turns Black, gp Red, and the right rotation at gp puts p in gp's
   * place; no Red node is left with a Red child.
   */
  lemma InsertCase3Left(a: seq<Node<Color>>, bh: seq<nat>, S: set<nat>, z: nat, p: nat, gp: nat,
                        a1: seq<Node<Color>>, b: seq<Node<Color>>)
    requires LocallyRedBlack(a, bh, S, z) && Parented(a, S)
    requires z in S && p in S && gp in S
    requires a[z].parent == p && a[p].parent == gp && a[p].left == z && a[gp].left == p
    requires a[p].data == Red && Col(a, a[gp].right) == Black
    requires z != gp && a[gp].parent != z && a[gp].parent != p
    requires a[gp].parent < |a| && (a[gp].parent != 0 ==> a[a[gp].parent].left == gp || a[a[gp].parent].right == gp)
    requires Recoloured(a, a1, p, gp, gp) && Col(a1, p) == Black && Col(a1, gp) == Red
    requires RightRotated(a1, b, gp)
    ensures LocallyRedBlack(b, bh, S, 0)
  {
    RotatedColours(a1, b, bh, gp);
    var c, ggp := a[p].right, a[gp].parent;
    assert Col(a, gp) == Black by {
      assert RedOK(a, gp, z, 0);
    }
    assert Col(b, 0) == Col(a, 0);
    forall i | i in S ensures BlackOK(b, bh, i) && RedOK(b, i, 0, 0) {
      assert BlackOK(a, bh, i) && RedOK(a, i, z, 0);
      assert SameLinks(a[i], a1[i]);
      if i == p {
        assert BlackOK(a, bh, gp) && RedOK(a, z, z, 0);
        assert a[z].left != p && a[z].right != p && a[z].left != gp && a[z].right != gp;
      } else if i == gp {
        assert BlackOK(a, bh, p) && RedOK(a, p, z, 0);
        assert c != p && c != gp;
      } else if i == ggp {
        assert BlackOK(a, bh, gp);
        assert a[i].left != p && a[i].right != p && a[i].left != z && a[i].right != z;
        assert Contrib(b, bh, p) == Contrib(a, bh, gp);
        if a[i].left == gp {
          assert b[i].left == p && b[i].right == a[i].right && Contrib(b, bh, a[i].right) == Contrib(a, bh, a[i].right);
        } else {
          assert b[i].right == p && b[i].left == a[i].left && Contrib(b, bh, a[i].left) == Contrib(a, bh, a[i].left);
        }
      } else {
        assert b[i].left == a[i].left && b[i].right == a[i].right;
        assert a[i].left != p && a[i].right != p && a[i].left != gp && a[i].right != gp;
        assert a[i].left != z && a[i].right != z;
      }
    }
  }

  /**
   * Case 2, parent on the right: z is its parent p's left child.  The right
   * rotation at p puts z in p's place, and the work moves to p, now z's right
   * child.
   */
  lemma InsertCase2Right(a: seq<Node<Color>>, bh: seq<nat>, S: set<nat>, z: nat, p: nat, gp: nat, b: seq<Node<Color>>)
    requires LocallyRedBlack(a, bh, S, z) && Parented(a, S)
    requires z in S && p in S && gp in S
    requires a[z].parent == p && a[p].parent == gp && a[p].left == z && a[gp].right == p
    requires a[p].data == Red && a[z].data == Red
    requires z != gp && a[gp].parent != z
    requires RightRotated(a, b, p)
    ensures LocallyRedBlack(b, bh, S, p)
  {
    RotatedColours(a, b, bh, p);
    var c := a[z].right;
    forall i | i in S ensures BlackOK(b, bh, i) && RedOK(b, i, p, 0) {
      assert BlackOK(a, bh, i) && RedOK(a, i, z, 0);
      if i == p {
        assert BlackOK(a, bh, z) && RedOK(a, z, z, 0);
      } else if i == z {
        assert BlackOK(a, bh, p) && RedOK(a, p, z, 0);
      } else if i == gp {
        assert BlackOK(a, bh, p);
      } else {
        assert b[i].right == a[i].right && b[i].left == a[i].left;
        assert a[i].right != z && a[i].left != z;
      }
    }
  }

  /**
   * Case 3, parent on the right: z is p's right child and the uncle is Black.
   * p turns Black, gp Red, and the left rotation at gp puts p in gp's
   * place; no Red node is left with a Red child.
   */
  lemma InsertCase3Right(a: seq<Node<Color>>, bh: seq<nat>, S: set<nat>, z: nat, p: nat, gp: nat,
                        a1: seq<Node<Color>>, b: seq<Node<Color>>)
    requires LocallyRedBlack(a, bh, S, z) && Parented(a, S)
    requires z in S && p in S && gp in S
    requires a[z].parent == p && a[p].parent == gp && a[p].right == z && a[gp].right == p
    requires a[p].data == Red && Col(a, a[gp].left) == Black
    requires z != gp && a[gp].parent != z && a[gp].parent != p
    requires a[gp].parent < |a| && (a[gp].parent != 0 ==> a[a[gp].parent].right == gp || a[a[gp].parent].left == gp)
    requires Recoloured(a, a1, p, gp, gp) && Col(a1, p) == Black && Col(a1, gp) == Red
    requires LeftRotated(a1, b, gp)
    ensures LocallyRedBlack(b, bh, S, 0)
  {
    RotatedColours(a1, b, bh, gp);
    var c, ggp := a[p].left, a[gp].parent;
    assert Col(a, gp) == Black by {
      assert RedOK(a, gp, z, 0);
    }
    assert Col(b, 0) == Col(a, 0);
    forall i | i in S ensures BlackOK(b, bh, i) && RedOK(b, i, 0, 0) {
      assert BlackOK(a, bh, i) && RedOK(a, i, z, 0);
      assert SameLinks(a[i], a1[i]);
      if i == p {
        assert BlackOK(a, bh, gp) && RedOK(a, z, z, 0);
        assert a[z].right != p && a[z].left != p && a[z].right != gp && a[z].left != gp;
      } else if i == gp {
        assert BlackOK(a, bh, p) && RedOK(a, p, z, 0);
        assert c != p && c != gp;
      } else if i == ggp {
        assert BlackOK(a, bh, gp);
        assert a[i].right != p && a[i].left != p && a[i].right != z && a[i].left != z;
        assert Contrib(b, bh, p) == Contrib(a, bh, gp);
        if a[i].right == gp {
          assert b[i].right == p && b[i].left == a[i].left && Contrib(b, bh, a[i].left) == Contrib(a, bh, a[i].left);
        } else {
          assert b[i].left == p && b[i].right == a[i].right && Contrib(b, bh, a[i].right) == Contrib(a, bh, a[i].right);
        }
      } else {
        assert b[i].right == a[i].right && b[i].left == a[i].left;
        assert a[i].right != p && a[i].left != p && a[i].right != gp && a[i].left != gp;
        assert a[i].right != z && a[i].left != z;
      }
    }
  }

  // ---------------------------------------------------------------------------
  // RemoveFixup, one case at a time, on the arena

  /** The other child of xp. */
  function Sibling<D>(a: seq<Node<D>>, x: nat, xp: nat): nat
    requires xp < |a|
  {
    if x == a[xp].left then a[xp].right else a[xp].left
  }

  /** x is a child of xp and adds one black node fewer than its sibling: the black node removal took out. */
  ghost predicate Deficit(a: seq<Node<Color>>, bh: seq<nat>, x: nat, xp: nat)
  {
    && xp < |a| && (x == a[xp].left || x == a[xp].right)
    && Contrib(a, bh, x) + 1 == Bh(bh, xp) && Contrib(a, bh, Sibling(a, x, xp)) == Bh(bh, xp)
  }

  /**
   * The local facts while RemoveFixup works on x: every node but xp is
   * balanced, xp (0 when there is none) has the deficit on x's side, and x
   * may be Red under a Red parent or have a Red child.
   */
  ghost predicate RemoveColouring(a: seq<Node<Color>>, bh: seq<nat>, S: set<nat>, x: nat, xp: nat)
  {
    && Sentinel(a, bh)
    && (forall i :: i in S ==> (i == xp || BlackOK(a, bh, i)) && RedOK(a, i, x, x))
    && (xp != 0 ==> Deficit(a, bh, x, xp))
  }

  /**
   * Case 1, x on the left: the sibling s is Red.  s turns Black, xp Red, and
   * the left rotation at xp puts s in xp's place; x keeps its deficit under
   * xp, whose new sibling is Black.
   */
  lemma RemoveCase1Left(a: seq<Node<Color>>, bh: seq<nat>, S: set<nat>, x: nat, xp: nat,
                        a1: seq<Node<Color>>, b: seq<Node<Color>>)
    requires RemoveColouring(a, bh, S, x, xp) && Parented(a, S)
    requires xp in S && (x == 0 || x in S) && x == a[xp].left && Col(a, x) == Black
    requires a[xp].right in S && Col(a, a[xp].right) == Red
    requires a[xp].parent != a[xp].right && (x != 0 ==> a[xp].parent != x)
    requires a[xp].parent < |a| && (a[xp].parent != 0 ==> a[a[xp].parent].left == xp || a[a[xp].parent].right == xp)
    requires Recoloured(a, a1, a[xp].right, xp, xp) && Col(a1, a[xp].right) == Black && Col(a1, xp) == Red
    requires LeftRotated(a1, b, xp)
    ensures RemoveColouring(b, bh, S, x, xp) && b[xp].left == x
    ensures b[xp].right != 0 && Col(b, b[xp].right) == Black
  {
    RotatedColours(a1, b, bh, xp);
    var s, pp := a[xp].right, a[xp].parent;
    var sl := a[s].left;
    assert Col(a, xp) == Black by {
      assert RedOK(a, xp, x, x);
    }
    assert Col(b, 0) == Col(a, 0);
    assert SameLinks(a[xp], a1[xp]) && SameLinks(a[s], a1[s]);
    assert BlackOK(a, bh, s) && RedOK(a, s, x, x);
    assert Contrib(b, bh, sl) == Contrib(a, bh, sl) == Bh(bh, xp);
    forall i | i in S ensures (i == xp || BlackOK(b, bh, i)) && RedOK(b, i, x, x) {
      assert (i == xp || BlackOK(a, bh, i)) && RedOK(a, i, x, x);
      assert SameLinks(a[i], a1[i]);
      if i == xp {
      } else if i == s {
      } else if i == pp {
        assert Contrib(b, bh, s) == Contrib(a, bh, xp);
        if a[i].left == xp {
          assert b[i].left == s && b[i].right == a[i].right && Contrib(b, bh, a[i].right) == Contrib(a, bh, a[i].right);
        } else {
          assert b[i].right == s && b[i].left == a[i].left && Contrib(b, bh, a[i].left) == Contrib(a, bh, a[i].left);
        }
      } else {
        assert b[i].left == a[i].left && b[i].right == a[i].right;
        assert a[i].left != s && a[i].right != s && a[i].left != xp && a[i].right != xp;
      }
    }
  }

  /** The deficit that case 2 moves up: xp under its parent. */
  lemma RemoveCase2Above(a: seq<Node<Color>>, bh: seq<nat>, S: set<nat>, x: nat, xp: nat, s: nat,
                         b: seq<Node<Color>>, bh': seq<nat>)
    requires RemoveColouring(a, bh, S, x, xp) && Parented(a, S)
    requires xp in S && (x == 0 || x in S) && Col(a, x) == Black
    requires s == Sibling(a, x, xp) && s in S && Col(a, s) == Black
    requires Col(a, a[s].left) == Black && Col(a, a[s].right) == Black
    requires a[xp].parent != s && (x != 0 ==> a[xp].parent != x)
    requires a[xp].parent < |a| && (a[xp].parent != 0 ==> a[xp].parent in S && (a[a[xp].parent].left == xp || a[a[xp].parent].right == xp))
    requires Recoloured(a, b, s, s, s) && Col(b, s) == Red
    requires Reheighted(bh, bh', xp, xp) && Bh(bh', xp) + 1 == Bh(bh, xp) && bh'[0] == 0
    ensures a[xp].parent != 0 ==> Deficit(b, bh', xp, a[xp].parent)
  {
    var pp := a[xp].parent;
    if pp != 0 {
      assert BlackOK(a, bh, pp) && RedOK(a, pp, x, x);
      assert SameLinks(a[pp], b[pp]) && SameLinks(a[xp], b[xp]);
      assert Contrib(b, bh', xp) + 1 == Contrib(a, bh, xp);
      assert Sibling(b, xp, pp) == Sibling(a, xp, pp);
      assert Contrib(b, bh', Sibling(b, xp, pp)) == Contrib(a, bh, Sibling(a, xp, pp));
    }
  }

  /**
   * Case 2: the sibling s and both its children are Black.  s turns Red,
   * which removes one black node from xp's other side too: xp's black
   * height drops by one and the deficit moves up to xp under its parent.
   */
  lemma RemoveCase2(a: seq<Node<Color>>, bh: seq<nat>, S: set<nat>, x: nat, xp: nat, s: nat,
                    b: seq<Node<Color>>, bh': seq<nat>)
    requires RemoveColouring(a, bh, S, x, xp) && Parented(a, S)
    requires xp in S && (x == 0 || x in S) && Col(a, x) == Black
    requires s == Sibling(a, x, xp) && s in S && Col(a, s) == Black
    requires Col(a, a[s].left) == Black && Col(a, a[s].right) == Black
    requires a[xp].parent != s && (x != 0 ==> a[xp].parent != x)
    requires a[xp].parent < |a| && (a[xp].parent != 0 ==> a[xp].parent in S && (a[a[xp].parent].left == xp || a[a[xp].parent].right == xp))
    requires Recoloured(a, b, s, s, s) && Col(b, s) == Red
    requires Reheighted(bh, bh', xp, xp) && Bh(bh', xp) + 1 == Bh(bh, xp) && bh'[0] == 0
    ensures RemoveColouring(b, bh', S, xp, a[xp].parent)
  {
    assert Col(b, 0) == Col(a, 0);
    RemoveCase2Above(a, bh, S, x, xp, s, b, bh');
    RemoveCase2Sites(a, bh, S, x, xp, s, b, bh');
    forall i | i in S && i != xp && i != s ensures (i == a[xp].parent || BlackOK(b, bh', i)) && RedOK(b, i, xp, xp) {
      RemoveCase2Other(a, bh, S, x, xp, s, b, bh', i);
    }
  }

  /** Case 2 at xp, whose black height drops, and at s, which turns Red. */
  lemma RemoveCase2Sites(a: seq<Node<Color>>, bh: seq<nat>, S: set<nat>, x: nat, xp: nat, s: nat,
                         b: seq<Node<Color>>, bh': seq<nat>)
    requires RemoveColouring(a, bh, S, x, xp) && Parented(a, S)
    requires xp in S && (x == 0 || x in S) && Col(a, x) == Black
    requires s == Sibling(a, x, xp) && s in S && Col(a, s) == Black
    requires Col(a, a[s].left) == Black && Col(a, a[s].right) == Black
    requires a[xp].parent != s && (x != 0 ==> a[xp].parent != x)
    requires a[xp].parent < |a| && (a[xp].parent != 0 ==> a[xp].parent in S && (a[a[xp].parent].left == xp || a[a[xp].parent].right == xp))
    requires Recoloured(a, b, s, s, s) && Col(b, s) == Red
    requires Reheighted(bh, bh', xp, xp) && Bh(bh', xp) + 1 == Bh(bh, xp) && bh'[0] == 0
    ensures (xp == a[xp].parent || BlackOK(b, bh', xp)) && RedOK(b, xp, xp, xp)
    ensures (s == a[xp].parent || BlackOK(b, bh', s)) && RedOK(b, s, xp, xp)
  {
    assert SameLinks(a[xp], b[xp]) && SameLinks(a[s], b[s]);
    assert BlackOK(a, bh, s) && RedOK(a, xp, x, x);
    assert Contrib(b, bh', x) == Contrib(a, bh, x);
    assert Contrib(b, bh', s) + 1 == Contrib(a, bh, s);
    assert a[s].left != xp && a[s].right != xp;
    assert Contrib(b, bh', a[s].left) == Contrib(a, bh, a[s].left);
    assert Contrib(b, bh', a[s].right) == Contrib(a, bh, a[s].right);
  }

  /** Case 2 at a node of S other than xp and s: nothing under it changed but, for xp's parent, xp's height. */
  lemma RemoveCase2Other(a: seq<Node<Color>>, bh: seq<nat>, S: set<nat>, x: nat, xp: nat, s: nat,
                         b: seq<Node<Color>>, bh': seq<nat>, i: nat)
    requires RemoveColouring(a, bh, S, x, xp) && Parented(a, S)
    requires xp in S && (x == 0 || x in S) && Col(a, x) == Black
    requires s == Sibling(a, x, xp) && s in S && Col(a, s) == Black
    requires Col(a, a[s].left) == Black && Col(a, a[s].right) == Black
    requires a[xp].parent != s && (x != 0 ==> a[xp].parent != x)
    requires a[xp].parent < |a| && (a[xp].parent != 0 ==> a[xp].parent in S && (a[a[xp].parent].left == xp || a[a[xp].parent].right == xp))
    requires Recoloured(a, b, s, s, s) && Col(b, s) == Red
    requires Reheighted(bh, bh', xp, xp) && Bh(bh', xp) + 1 == Bh(bh, xp) && bh'[0] == 0
    requires i in S && i != xp && i != s
    ensures (i == a[xp].parent || BlackOK(b, bh', i)) && RedOK(b, i, xp, xp)
  {
    var pp := a[xp].parent;
    assert (i == xp || BlackOK(a, bh, i)) && RedOK(a, i, x, x);
    assert SameLinks(a[i], b[i]);
    if i == pp {
      assert a[i].left != x || x == 0;
      assert a[i].right != x || x == 0;
      assert Col(b, a[i].left) == Col(a, a[i].left);
      assert Col(b, a[i].right) == Col(a, a[i].right);
    } else if i == x {
      assert a[i].left != xp && a[i].right != xp && a[i].left != s && a[i].right != s;
      RemoveKept(a, bh, b, bh', i, x);
    } else {
      assert a[i].left != s && a[i].right != s && a[i].left != xp && a[i].right != xp;
      assert a[i].left != x || x == 0;
      assert a[i].right != x || x == 0;
      RemoveKept(a, bh, b, bh', i, x);
    }
  }

  /** A balanced node away from the changes stays balanced, and its children x may be only when Black. */
  lemma RemoveKept(a: seq<Node<Color>>, bh: seq<nat>, b: seq<Node<Color>>, bh': seq<nat>, i: nat, x: nat)
    requires BlackOK(a, bh, i) && RedOK(a, i, x, x) && (i != x || Col(a, i) == Black) && a[0].data == Black
    requires i < |b| && b[i].left == a[i].left && b[i].right == a[i].right
    requires Col(b, i) == Col(a, i)
    requires Col(b, a[i].left) == Col(a, a[i].left) && Contrib(b, bh', a[i].left) == Contrib(a, bh, a[i].left)
    requires Col(b, a[i].right) == Col(a, a[i].right) && Contrib(b, bh', a[i].right) == Contrib(a, bh, a[i].right)
    requires Bh(bh', i) == Bh(bh, i)
    requires (a[i].left != x || x == 0) && (a[i].right != x || x == 0)
    ensures BlackOK(b, bh', i)
    ensures Col(b, i) == Red ==> Col(b, b[i].left) == Black && Col(b, b[i].right) == Black
  {
  }

  /**
   * Case 3, x on the left: the sibling s is Black with a Red left child sl
   * and a Black right child.  sl turns Black, s Red, and the right rotation
   * at s makes sl the sibling, now with a Red right child.
   */
  lemma RemoveCase3Left(a: seq<Node<Color>>, bh: seq<nat>, S: set<nat>, x: nat, xp: nat, s: nat,
                        a1: seq<Node<Color>>, b: seq<Node<Color>>)
    requires RemoveColouring(a, bh, S, x, xp) && Parented(a, S)
    requires xp in S && (x == 0 || x in S) && x == a[xp].left && Col(a, x) == Black
    requires s == a[xp].right && s in S && Col(a, s) == Black
    requires a[s].left in S && Col(a, a[s].left) == Red && Col(a, a[s].right) == Black
    requires a[xp].parent != s && a[xp].parent != a[s].left
    requires Recoloured(a, a1, a[s].left, s, s) && Col(a1, a[s].left) == Black && Col(a1, s) == Red
    requires RightRotated(a1, b, s)
    ensures RemoveColouring(b, bh, S, x, xp) && b[xp].left == x && b[xp].right == a[s].left
    ensures Col(b, a[s].left) == Black && Col(b, b[a[s].left].right) == Red
  {
    RotatedColours(a1, b, bh, s);
    var sl := a[s].left;
    assert Col(b, 0) == Col(a, 0);
    assert SameLinks(a[xp], a1[xp]) && SameLinks(a[s], a1[s]) && SameLinks(a[sl], a1[sl]);
    assert BlackOK(a, bh, s) && BlackOK(a, bh, sl) && RedOK(a, sl, x, x);
    assert a1[s].left == sl && a1[s].parent == xp;
    assert b[sl].right == s && Col(b, s) == Col(a1, s);
    forall i | i in S ensures (i == xp || BlackOK(b, bh, i)) && RedOK(b, i, x, x) {
      assert (i == xp || BlackOK(a, bh, i)) && RedOK(a, i, x, x);
      assert SameLinks(a[i], a1[i]);
      if i == xp {
        assert Contrib(b, bh, x) == Contrib(a, bh, x);
      } else if i == s {
        assert a[sl].right != x || x == 0;
      } else if i == sl {
      } else {
        assert b[i].left == a[i].left && b[i].right == a[i].right;
        assert a[i].left != s && a[i].right != s && a[i].left != sl && a[i].right != sl;
        assert a[i].left != x || x == 0;
        assert a[i].right != x || x == 0;
        RemoveKept(a, bh, b, bh, i, x);
      }
    }
  }

  /**
   * Case 4, x on the left: the sibling s is Black with a Red right child sr.
   * s takes xp's colour, xp and sr turn Black, and the left rotation at xp
   * puts s in xp's place; the black heights are repaired everywhere.
   */
  lemma RemoveCase4Left(a: seq<Node<Color>>, bh: seq<nat>, S: set<nat>, x: nat, xp: nat, s: nat,
                        a1: seq<Node<Color>>, b: seq<Node<Color>>, bh': seq<nat>)
    requires RemoveColouring(a, bh, S, x, xp) && Parented(a, S)
    requires xp in S && (x == 0 || x in S) && x == a[xp].left && Col(a, x) == Black
    requires s == a[xp].right && s in S && Col(a, s) == Black
    requires a[s].right in S && Col(a, a[s].right) == Red
    requires a[xp].parent != s && (a[s].left != 0 ==> a[xp].parent != a[s].left) && a[xp].parent != a[s].right && (x != 0 ==> a[xp].parent != x)
    requires a[xp].parent < |a| && (a[xp].parent != 0 ==> a[a[xp].parent].left == xp || a[a[xp].parent].right == xp)
    requires Recoloured(a, a1, s, xp, a[s].right) && Col(a1, s) == Col(a, xp) && Col(a1, xp) == Black && Col(a1, a[s].right) == Black
    requires LeftRotated(a1, b, xp)
    requires Reheighted(bh, bh', xp, s) && Bh(bh', xp) + 1 == Bh(bh, xp) && Bh(bh', s) == Bh(bh, xp) && bh'[0] == 0
    ensures LocallyRedBlack(b, bh', S, 0)
  {
    RemoveCase4LeftSites(a, bh, S, x, xp, s, a1, b, bh');
    forall i | i in S ensures BlackOK(b, bh', i) && RedOK(b, i, 0, 0) {
      if i == a[xp].parent {
        RemoveCase4LeftAbove(a, bh, S, x, xp, s, a1, b, bh');
      } else if i != xp && i != s && i != a[s].right {
        RemoveCase4LeftOther(a, bh, S, x, xp, s, a1, b, bh', i);
      }
    }
  }

  /** Case 4 at xp's parent, which now has s where xp was. */
  lemma RemoveCase4LeftAbove(a: seq<Node<Color>>, bh: seq<nat>, S: set<nat>, x: nat, xp: nat, s: nat,
                        a1: seq<Node<Color>>, b: seq<Node<Color>>, bh': seq<nat>)
    requires RemoveColouring(a, bh, S, x, xp) && Parented(a, S)
    requires xp in S && (x == 0 || x in S) && x == a[xp].left && Col(a, x) == Black
    requires s == a[xp].right && s in S && Col(a, s) == Black
    requires a[s].right in S && Col(a, a[s].right) == Red
    requires a[xp].parent != s && (a[s].left != 0 ==> a[xp].parent != a[s].left) && a[xp].parent != a[s].right && (x != 0 ==> a[xp].parent != x)
    requires a[xp].parent < |a| && (a[xp].parent != 0 ==> a[a[xp].parent].left == xp || a[a[xp].parent].right == xp)
    requires Recoloured(a, a1, s, xp, a[s].right) && Col(a1, s) == Col(a, xp) && Col(a1, xp) == Black && Col(a1, a[s].right) == Black
    requires LeftRotated(a1, b, xp)
    requires Reheighted(bh, bh', xp, s) && Bh(bh', xp) + 1 == Bh(bh, xp) && Bh(bh', s) == Bh(bh, xp) && bh'[0] == 0
    requires a[xp].parent in S
    ensures BlackOK(b, bh', a[xp].parent) && RedOK(b, a[xp].parent, 0, 0)
  {
    RotatedColours(a1, b, bh', xp);
    var sl, sr, pp := a[s].left, a[s].right, a[xp].parent;
    Unmoved(a, a1, b, bh, bh', s, xp, sr);
    var i := pp;
    assert BlackOK(a, bh, i) && RedOK(a, i, x, x);
    assert SameLinks(a[i], a1[i]);
    assert Col(a, xp) == Red ==> Col(a, i) == Black by {
      assert RedOK(a, i, x, x);
    }
    if a[i].left == xp {
      assert b[i].left == s && b[i].right == a[i].right && Contrib(b, bh', a[i].right) == Contrib(a, bh, a[i].right);
    } else {
      assert b[i].right == s && b[i].left == a[i].left && Contrib(b, bh', a[i].left) == Contrib(a, bh, a[i].left);
    }
  }

  /** Case 4 at a node of S that it neither recolours nor relinks. */
  lemma RemoveCase4LeftOther(a: seq<Node<Color>>, bh: seq<nat>, S: set<nat>, x: nat, xp: nat, s: nat,
                        a1: seq<Node<Color>>, b: seq<Node<Color>>, bh': seq<nat>, i: nat)
    requires RemoveColouring(a, bh, S, x, xp) && Parented(a, S)
    requires xp in S && (x == 0 || x in S) && x == a[xp].left && Col(a, x) == Black
    requires s == a[xp].right && s in S && Col(a, s) == Black
    requires a[s].right in S && Col(a, a[s].right) == Red
    requires a[xp].parent != s && (a[s].left != 0 ==> a[xp].parent != a[s].left) && a[xp].parent != a[s].right && (x != 0 ==> a[xp].parent != x)
    requires a[xp].parent < |a| && (a[xp].parent != 0 ==> a[a[xp].parent].left == xp || a[a[xp].parent].right == xp)
    requires Recoloured(a, a1, s, xp, a[s].right) && Col(a1, s) == Col(a, xp) && Col(a1, xp) == Black && Col(a1, a[s].right) == Black
    requires LeftRotated(a1, b, xp)
    requires Reheighted(bh, bh', xp, s) && Bh(bh', xp) + 1 == Bh(bh, xp) && Bh(bh', s) == Bh(bh, xp) && bh'[0] == 0
    requires i in S && i != xp && i != s && i != a[s].right && i != a[xp].parent
    ensures BlackOK(b, bh', i) && RedOK(b, i, 0, 0)
  {
    RotatedColours(a1, b, bh', xp);
    var sl, sr, pp := a[s].left, a[s].right, a[xp].parent;
    Unmoved(a, a1, b, bh, bh', s, xp, sr);
    assert BlackOK(a, bh, i) && RedOK(a, i, x, x);
    assert SameLinks(a[i], a1[i]);
    assert b[i].left == a[i].left && b[i].right == a[i].right;
    assert a[i].left != s && a[i].right != s && a[i].left != xp && a[i].right != xp;
    assert a[i].left != sr && a[i].right != sr;
    assert a[i].left != x || x == 0;
    assert a[i].right != x || x == 0;
    RemoveKept(a, bh, b, bh', i, x);
  }

  /** The three nodes case 4 recolours and rotates (xp, s and s's right child) are balanced afterwards. */
  lemma RemoveCase4LeftSites(a: seq<Node<Color>>, bh: seq<nat>, S: set<nat>, x: nat, xp: nat, s: nat,
                        a1: seq<Node<Color>>, b: seq<Node<Color>>, bh': seq<nat>)
    requires RemoveColouring(a, bh, S, x, xp) && Parented(a, S)
    requires xp in S && (x == 0 || x in S) && x == a[xp].left && Col(a, x) == Black
    requires s == a[xp].right && s in S && Col(a, s) == Black
    requires a[s].right in S && Col(a, a[s].right) == Red
    requires a[xp].parent != s && (a[s].left != 0 ==> a[xp].parent != a[s].left) && a[xp].parent != a[s].right && (x != 0 ==> a[xp].parent != x)
    requires a[xp].parent < |a| && (a[xp].parent != 0 ==> a[a[xp].parent].left == xp || a[a[xp].parent].right == xp)
    requires Recoloured(a, a1, s, xp, a[s].right) && Col(a1, s) == Col(a, xp) && Col(a1, xp) == Black && Col(a1, a[s].right) == Black
    requires LeftRotated(a1, b, xp)
    requires Reheighted(bh, bh', xp, s) && Bh(bh', xp) + 1 == Bh(bh, xp) && Bh(bh', s) == Bh(bh, xp) && bh'[0] == 0
    ensures BlackOK(b, bh', xp) && RedOK(b, xp, 0, 0) && BlackOK(b, bh', s) && RedOK(b, s, 0, 0)
    ensures BlackOK(b, bh', a[s].right) && RedOK(b, a[s].right, 0, 0) && Sentinel(b, bh')
  {
    RotatedColours(a1, b, bh', xp);
    assert Col(b, 0) == Col(a, 0);
    var sl, sr, pp := a[s].left, a[s].right, a[xp].parent;
    assert SameLinks(a[xp], a1[xp]) && SameLinks(a[s], a1[s]) && SameLinks(a[sr], a1[sr]);
    assert Deficit(a, bh, x, xp) && BlackOK(a, bh, s) && BlackOK(a, bh, sr);
    assert Contrib(b, bh', x) == Contrib(a, bh, x);
    assert Contrib(b, bh', sl) == Contrib(a, bh, sl);
    assert a[sr].left != s && a[sr].right != s && a[sr].left != xp && a[sr].right != xp;
  }

  /**
   * Case 1, x on the right: the sibling s is Red.  s turns Black, xp Red, and
   * the right rotation at xp puts s in xp's place; x keeps its deficit under
   * xp, whose new sibling is Black.
   */
  lemma RemoveCase1Right(a: seq<Node<Color>>, bh: seq<nat>, S: set<nat>, x: nat, xp: nat,
                        a1: seq<Node<Color>>, b: seq<Node<Color>>)
    requires RemoveColouring(a, bh, S, x, xp) && Parented(a, S)
    requires xp in S && (x == 0 || x in S) && x == a[xp].right && Col(a, x) == Black
    requires a[xp].left in S && Col(a, a[xp].left) == Red
    requires a[xp].parent != a[xp].left && (x != 0 ==> a[xp].parent != x)
    requires a[xp].parent < |a| && (a[xp].parent != 0 ==> a[a[xp].parent].right == xp || a[a[xp].parent].left == xp)
    requires Recoloured(a, a1, a[xp].left, xp, xp) && Col(a1, a[xp].left) == Black && Col(a1, xp) == Red
    requires RightRotated(a1, b, xp)
    ensures RemoveColouring(b, bh, S, x, xp) && b[xp].right == x
    ensures b[xp].left != 0 && Col(b, b[xp].left) == Black
  {
    RotatedColours(a1, b, bh, xp);
    var s, pp := a[xp].left, a[xp].parent;
    var sr := a[s].right;
    assert Col(a, xp) == Black by {
      assert RedOK(a, xp, x, x);
    }
    assert Col(b, 0) == Col(a, 0);
    assert SameLinks(a[xp], a1[xp]) && SameLinks(a[s], a1[s]);
    assert BlackOK(a, bh, s) && RedOK(a, s, x, x);
    assert Contrib(b, bh, sr) == Contrib(a, bh, sr) == Bh(bh, xp);
    forall i | i in S ensures (i == xp || BlackOK(b, bh, i)) && RedOK(b, i, x, x) {
      assert (i == xp || BlackOK(a, bh, i)) && RedOK(a, i, x, x);
      assert SameLinks(a[i], a1[i]);
      if i == xp {
      } else if i == s {
      } else if i == pp {
        assert Contrib(b, bh, s) == Contrib(a, bh, xp);
        if a[i].right == xp {
          assert b[i].right == s && b[i].left == a[i].left && Contrib(b, bh, a[i].left) == Contrib(a, bh, a[i].left);
        } else {
          assert b[i].left == s && b[i].right == a[i].right && Contrib(b, bh, a[i].right) == Contrib(a, bh, a[i].right);
        }
      } else {
        assert b[i].right == a[i].right && b[i].left == a[i].left;
        assert a[i].right != s && a[i].left != s && a[i].right != xp && a[i].left != xp;
      }
    }
  }

  /**
   * Case 3, x on the right: the sibling s is Black with a Red right child sr
   * and a Black left child.  sr turns Black, s Red, and the left rotation
   * at s makes sr the sibling, now with a Red left child.
   */
  lemma RemoveCase3Right(a: seq<Node<Color>>, bh: seq<nat>, S: set<nat>, x: nat, xp: nat, s: nat,
                        a1: seq<Node<Color>>, b: seq<Node<Color>>)
    requires RemoveColouring(a, bh, S, x, xp) && Parented(a, S)
    requires xp in S && (x == 0 || x in S) && x == a[xp].right && Col(a, x) == Black
    requires s == a[xp].left && s in S && Col(a, s) == Black
    requires a[s].right in S && Col(a, a[s].right) == Red && Col(a, a[s].left) == Black
    requires a[xp].parent != s && a[xp].parent != a[s].right
    requires Recoloured(a, a1, a[s].right, s, s) && Col(a1, a[s].right) == Black && Col(a1, s) == Red
    requires LeftRotated(a1, b, s)
    ensures RemoveColouring(b, bh, S, x, xp) && b[xp].right == x && b[xp].left == a[s].right
    ensures Col(b, a[s].right) == Black && Col(b, b[a[s].right].left) == Red
  {
    RotatedColours(a1, b, bh, s);
    var sr := a[s].right;
    assert Col(b, 0) == Col(a, 0);
    assert SameLinks(a[xp], a1[xp]) && SameLinks(a[s], a1[s]) && SameLinks(a[sr], a1[sr]);
    assert BlackOK(a, bh, s) && BlackOK(a, bh, sr) && RedOK(a, sr, x, x);
    assert a1[s].right == sr && a1[s].parent == xp;
    assert b[sr].left == s && Col(b, s) == Col(a1, s);
    forall i | i in S ensures (i == xp || BlackOK(b, bh, i)) && RedOK(b, i, x, x) {
      assert (i == xp || BlackOK(a, bh, i)) && RedOK(a, i, x, x);
      assert SameLinks(a[i], a1[i]);
      if i == xp {
        assert Contrib(b, bh, x) == Contrib(a, bh, x);
      } else if i == s {
        assert a[sr].left != x || x == 0;
      } else if i == sr {
      } else {
        assert b[i].right == a[i].right && b[i].left == a[i].left;
        assert a[i].right != s && a[i].left != s && a[i].right != sr && a[i].left != sr;
        assert a[i].right != x || x == 0;
        assert a[i].left != x || x == 0;
        RemoveKept(a, bh, b, bh, i, x);
      }
    }
  }

  /**
   * Case 4, x on the right: the sibling s is Black with a Red left child sl.
   * s takes xp's colour, xp and sl turn Black, and the right rotation at xp
   * puts s in xp's place; the black heights are repaired everywhere.
   */
  lemma RemoveCase4Right(a: seq<Node<Color>>, bh: seq<nat>, S: set<nat>, x: nat, xp: nat, s: nat,
                        a1: seq<Node<Color>>, b: seq<Node<Color>>, bh': seq<nat>)
    requires RemoveColouring(a, bh, S, x, xp) && Parented(a, S)
    requires xp in S && (x == 0 || x in S) && x == a[xp].right && Col(a, x) == Black
    requires s == a[xp].left && s in S && Col(a, s) == Black
    requires a[s].left in S && Col(a, a[s].left) == Red
    requires a[xp].parent != s && (a[s].right != 0 ==> a[xp].parent != a[s].right) && a[xp].parent != a[s].left && (x != 0 ==> a[xp].parent != x)
    requires a[xp].parent < |a| && (a[xp].parent != 0 ==> a[a[xp].parent].right == xp || a[a[xp].parent].left == xp)
    requires Recoloured(a, a1, s, xp, a[s].left) && Col(a1, s) == Col(a, xp) && Col(a1, xp) == Black && Col(a1, a[s].left) == Black
    requires RightRotated(a1, b, xp)
    requires Reheighted(bh, bh', xp, s) && Bh(bh', xp) + 1 == Bh(bh, xp) && Bh(bh', s) == Bh(bh, xp) && bh'[0] == 0
    ensures LocallyRedBlack(b, bh', S, 0)
  {
    RemoveCase4RightSites(a, bh, S, x, xp, s, a1, b, bh');
    forall i | i in S ensures BlackOK(b, bh', i) && RedOK(b, i, 0, 0) {
      if i == a[xp].parent {
        RemoveCase4RightAbove(a, bh, S, x, xp, s, a1, b, bh');
      } else if i != xp && i != s && i != a[s].left {
        RemoveCase4RightOther(a, bh, S, x, xp, s, a1, b, bh', i);
      }
    }
  }

  /** Case 4 at xp's parent, which now has s where xp was. */
  lemma RemoveCase4RightAbove(a: seq<Node<Color>>, bh: seq<nat>, S: set<nat>, x: nat, xp: nat, s: nat,
                        a1: seq<Node<Color>>, b: seq<Node<Color>>, bh': seq<nat>)
    requires RemoveColouring(a, bh, S, x, xp) && Parented(a, S)
    requires xp in S && (x == 0 || x in S) && x == a[xp].right && Col(a, x) == Black
    requires s == a[xp].left && s in S && Col(a, s) == Black
    requires a[s].left in S && Col(a, a[s].left) == Red
    requires a[xp].parent != s && (a[s].right != 0 ==> a[xp].parent != a[s].right) && a[xp].parent != a[s].left && (x != 0 ==> a[xp].parent != x)
    requires a[xp].parent < |a| && (a[xp].parent != 0 ==> a[a[xp].parent].right == xp || a[a[xp].parent].left == xp)
    requires Recoloured(a, a1, s, xp, a[s].left) && Col(a1, s) == Col(a, xp) && Col(a1, xp) == Black && Col(a1, a[s].left) == Black
    requires RightRotated(a1, b, xp)
    requires Reheighted(bh, bh', xp, s) && Bh(bh', xp) + 1 == Bh(bh, xp) && Bh(bh', s) == Bh(bh, xp) && bh'[0] == 0
    requires a[xp].parent in S
    ensures BlackOK(b, bh', a[xp].parent) && RedOK(b, a[xp].parent, 0, 0)
  {
    RotatedColours(a1, b, bh', xp);
    var sr, sl, pp := a[s].right, a[s].left, a[xp].parent;
    Unmoved(a, a1, b, bh, bh', s, xp, sl);
    var i := pp;
    assert BlackOK(a, bh, i) && RedOK(a, i, x, x);
    assert SameLinks(a[i], a1[i]);
    assert Col(a, xp) == Red ==> Col(a, i) == Black by {
      assert RedOK(a, i, x, x);
    }
    if a[i].right == xp {
      assert b[i].right == s && b[i].left == a[i].left && Contrib(b, bh', a[i].left) == Contrib(a, bh, a[i].left);
    } else {
      assert b[i].left == s && b[i].right == a[i].right && Contrib(b, bh', a[i].right) == Contrib(a, bh, a[i].right);
    }
  }

  /** Case 4 at a node of S that it neither recolours nor relinks. */
  lemma RemoveCase4RightOther(a: seq<Node<Color>>, bh: seq<nat>, S: set<nat>, x: nat, xp: nat, s: nat,
                        a1: seq<Node<Color>>, b: seq<Node<Color>>, bh': seq<nat>, i: nat)
    requires RemoveColouring(a, bh, S, x, xp) && Parented(a, S)
    requires xp in S && (x == 0 || x in S) && x == a[xp].right && Col(a, x) == Black
    requires s == a[xp].left && s in S && Col(a, s) == Black
    requires a[s].left in S && Col(a, a[s].left) == Red
    requires a[xp].parent != s && (a[s].right != 0 ==> a[xp].parent != a[s].right) && a[xp].parent != a[s].left && (x != 0 ==> a[xp].parent != x)
    requires a[xp].parent < |a| && (a[xp].parent != 0 ==> a[a[xp].parent].right == xp || a[a[xp].parent].left == xp)
    requires Recoloured(a, a1, s, xp, a[s].left) && Col(a1, s) == Col(a, xp) && Col(a1, xp) == Black && Col(a1, a[s].left) == Black
    requires RightRotated(a1, b, xp)
    requires Reheighted(bh, bh', xp, s) && Bh(bh', xp) + 1 == Bh(bh, xp) && Bh(bh', s) == Bh(bh, xp) && bh'[0] == 0
    requires i in S && i != xp && i != s && i != a[s].left && i != a[xp].parent
    ensures BlackOK(b, bh', i) && RedOK(b, i, 0, 0)
  {
    RotatedColours(a1, b, bh', xp);
    var sr, sl, pp := a[s].right, a[s].left, a[xp].parent;
    Unmoved(a, a1, b, bh, bh', s, xp, sl);
    assert BlackOK(a, bh, i) && RedOK(a, i, x, x);
    assert SameLinks(a[i], a1[i]);
    assert b[i].right == a[i].right && b[i].left == a[i].left;
    assert a[i].right != s && a[i].left != s && a[i].right != xp && a[i].left != xp;
    assert a[i].right != sl && a[i].left != sl;
    assert a[i].right != x || x == 0;
    assert a[i].left != x || x == 0;
    RemoveKept(a, bh, b, bh', i, x);
  }

  /** The three nodes case 4 recolours and rotates (xp, s and s's left child) are balanced afterwards. */
  lemma RemoveCase4RightSites(a: seq<Node<Color>>, bh: seq<nat>, S: set<nat>, x: nat, xp: nat, s: nat,
                        a1: seq<Node<Color>>, b: seq<Node<Color>>, bh': seq<nat>)
    requires RemoveColouring(a, bh, S, x, xp) && Parented(a, S)
    requires xp in S && (x == 0 || x in S) && x == a[xp].right && Col(a, x) == Black
    requires s == a[xp].left && s in S && Col(a, s) == Black
    requires a[s].left in S && Col(a, a[s].left) == Red
    requires a[xp].parent != s && (a[s].right != 0 ==> a[xp].parent != a[s].right) && a[xp].parent != a[s].left && (x != 0 ==> a[xp].parent != x)
    requires a[xp].parent < |a| && (a[xp].parent != 0 ==> a[a[xp].parent].right == xp || a[a[xp].parent].left == xp)
    requires Recoloured(a, a1, s, xp, a[s].left) && Col(a1, s) == Col(a, xp) && Col(a1, xp) == Black && Col(a1, a[s].left) == Black
    requires RightRotated(a1, b, xp)
    requires Reheighted(bh, bh', xp, s) && Bh(bh', xp) + 1 == Bh(bh, xp) && Bh(bh', s) == Bh(bh, xp) && bh'[0] == 0
    ensures BlackOK(b, bh', xp) && RedOK(b, xp, 0, 0) && BlackOK(b, bh', s) && RedOK(b, s, 0, 0)
    ensures BlackOK(b, bh', a[s].left) && RedOK(b, a[s].left, 0, 0) && Sentinel(b, bh')
  {
    RotatedColours(a1, b, bh', xp);
    assert Col(b, 0) == Col(a, 0);
    var sr, sl, pp := a[s].right, a[s].left, a[xp].parent;
    assert SameLinks(a[xp], a1[xp]) && SameLinks(a[s], a1[s]) && SameLinks(a[sl], a1[sl]);
    assert Deficit(a, bh, x, xp) && BlackOK(a, bh, s) && BlackOK(a, bh, sl);
    assert Contrib(b, bh', x) == Contrib(a, bh, x);
    assert Contrib(b, bh', sr) == Contrib(a, bh, sr);
    assert a[sl].left != s && a[sl].right != s && a[sl].left != xp && a[sl].right != xp;
  }

  // ---------------------------------------------------------------------------
  // Facts the fixups need about where they look

  /** Nodes on the longest downward path of t. */
  function ShapeHeight(t: Shape): nat
  {
    match t
    case Nil => 0
    case Br(_, l, r) => 1 + (if ShapeHeight(l) >= ShapeHeight(r) then ShapeHeight(l) else ShapeHeight(r))
  }

  /**
   * The family of a node z two levels below the top: its parent p, its
   * grandparent gp, gp's parent and p's sibling u (the uncle) are where
   * InsertFixup looks, and they are distinct where they are nodes.
   */
  lemma Lineage<D>(a: seq<Node<D>>, t: Shape, z: nat)
    requires WellLinked(a, t) && z in Ids(t) && z < |a| && z != Root(t) && a[z].parent != Root(t)
    ensures var p := a[z].parent; p in Ids(t) && p < |a| && (a[p].left == z || a[p].right == z) && z != p
    ensures var p := a[z].parent; var gp := a[p].parent;
      && gp in Ids(t) && gp < |a| && (a[gp].left == p || a[gp].right == p)
      && gp != z && gp != p && Depth(t, gp) + 2 == Depth(t, z)
      && a[gp].parent < |a| && a[gp].parent != z && a[gp].parent != p && a[gp].parent != gp
      && (a[gp].parent != 0 ==> a[gp].parent in Ids(t) && (a[a[gp].parent].left == gp || a[a[gp].parent].right == gp))
    ensures var p := a[z].parent; var gp := a[p].parent; var u := if a[gp].left == p then a[gp].right else a[gp].left;
      && u < |a|
      && (u != 0 ==> u in Ids(t) && a[u].parent == gp && u != z && u != p && u != gp && u != a[gp].parent)
  {
    var p := a[z].parent;
    LinkedBounds(a, t, 0);
    ParentLinks(a, t, z);
    ParentLinks(a, t, p);
    var gp := a[p].parent;
    ChildLinks(a, t, 0, gp);
    SpliceSites(a, t, gp);
    if a[gp].parent != 0 {
      ParentLinks(a, t, gp);
    }
    var u := if a[gp].left == p then a[gp].right else a[gp].left;
    if u != 0 {
      ParentLinks(a, t, u);
    }
  }

  /**
   * Hanging a new Red leaf n = |a| of black height 1 where p (or the empty
   * tree) had the sentinel keeps the local facts; the only exception is
   * that n may be the Red child of a Red p.
   */
  lemma AttachColouring(a: seq<Node<Color>>, bh: seq<nat>, S: set<nat>, key: int, p: nat, b: seq<Node<Color>>, bh': seq<nat>)
    requires LocallyRedBlack(a, bh, S, 0)
    requires forall i :: i in S ==> 0 < i < |a| && a[i].left < |a| && a[i].right < |a|
    requires p == 0 || p in S
    requires |b| == |a| + 1 && bh' == bh + [1]
    requires b[|a|].left == 0 && b[|a|].right == 0 && b[|a|].data == Red
    requires b[0] == a[0] && forall i :: 0 < i < |a| && i != p ==> b[i] == a[i]
    requires p != 0 ==> (if key < a[p].key then a[p].left else a[p].right) == 0
    requires p != 0 ==> b[p] == if key < a[p].key then a[p].(left := |a|) else a[p].(right := |a|)
    ensures LocallyRedBlack(b, bh', S + {|a|}, |a|)
  {
    var n := |a|;
    assert Contrib(b, bh', n) == 1 == Contrib(a, bh, 0);
    forall i | i in S + {n} ensures BlackOK(b, bh', i) && RedOK(b, i, n, 0) {
      if i != n {
        assert BlackOK(a, bh, i) && RedOK(a, i, 0, 0);
        var l, r := a[i].left, a[i].right;
        assert Col(b, l) == Col(a, l) && Bh(bh', l) == Bh(bh, l);
        assert Col(b, r) == Col(a, r) && Bh(bh', r) == Bh(bh, r);
      }
    }
  }

  /**
   * Once z's parent is Black, z's exception is void; making the root r
   * Black then leaves the red-black facts everywhere.
   */
  lemma FixupDone(a: seq<Node<Color>>, bh: seq<nat>, S: set<nat>, z: nat, r: nat, b: seq<Node<Color>>)
    requires LocallyRedBlack(a, bh, S, z) && Parented(a, S)
    requires z in S && r in S && a[r].parent == 0
    requires Col(a, a[z].parent) == Black && (Col(a, r) == Black || z == r)
    requires b == a[r := a[r].(data := Black)]
    ensures LocallyRedBlack(b, bh, S, 0) && Col(b, r) == Black
  {
    forall i | i in S ensures BlackOK(b, bh, i) && RedOK(b, i, 0, 0) {
      assert BlackOK(a, bh, i) && RedOK(a, i, z, 0);
      assert a[i].left != r && a[i].right != r;
      if a[i].left == z || a[i].right == z {
        assert a[z].parent == i;
      }
    }
  }

  // ---------------------------------------------------------------------------
  // The tree's invariants, on the arena

  /** a, bh, t and r form a search tree linked under the sentinel, with a black height for every slot. */
  ghost predicate SearchTree(a: seq<Node<Color>>, bh: seq<nat>, t: Shape, r: nat)
  {
    && |a| >= 1 && |bh| == |a| && r < |a|
    && WellLinked(a, t) && r == Root(t) && Ascending(KeySeq(a, t))
  }

  /** A search tree with a Black root and the red-black facts at every node. */
  ghost predicate RedBlackState(a: seq<Node<Color>>, bh: seq<nat>, t: Shape, r: nat)
  {
    SearchTree(a, bh, t, r) && Col(a, r) == Black && LocallyRedBlack(a, bh, Ids(t), 0)
  }

  /**
   * The state InsertFixup works in: z is a Red node, the only Red-Red
   * link allowed is z under its parent, and the root is Black unless it
   * is z.
   */
  ghost predicate InsertState(a: seq<Node<Color>>, bh: seq<nat>, t: Shape, r: nat, z: nat)
  {
    && SearchTree(a, bh, t, r) && z in Ids(t) && z < |a| && a[z].parent < |a|
    && Col(a, z) == Red && LocallyRedBlack(a, bh, Ids(t), z)
    && (Col(a, r) == Black || z == r)
  }

  /**
   * The state is a red-black tree: sentinel and root Black, no Red node
   * with a Red child, one black height on every path, which the table
   * records for the root.
   */
  lemma RedBlackStateProperties(a: seq<Node<Color>>, bh: seq<nat>, t: Shape, r: nat)
    requires RedBlackState(a, bh, t, r)
    ensures RedBlackTree(a, t) && BlackHeight(a, t) == Contrib(a, bh, r)
  {
    LocalColouring(a, bh, t, 0);
  }

  /** A colour write keeps the search tree and its keys. */
  lemma PaintKeeps(a: seq<Node<Color>>, bh: seq<nat>, t: Shape, r: nat, i: nat, c: Color)
    requires SearchTree(a, bh, t, r)
    ensures SearchTree(Paint(a, i, c), bh, t, r) && KeySeq(Paint(a, i, c), t) == KeySeq(a, t)
  {
    DataChanged(a, Paint(a, i, c), t);
  }

  /** Three colour writes in a row keep the search tree and its keys. */
  lemma PaintKeeps3(a: seq<Node<Color>>, bh: seq<nat>, t: Shape, r: nat, i: nat, ci: Color, j: nat, cj: Color, k: nat, ck: Color)
    requires SearchTree(a, bh, t, r)
    ensures var d := Paint(Paint(Paint(a, i, ci), j, cj), k, ck);
      SearchTree(d, bh, t, r) && KeySeq(d, t) == KeySeq(a, t)
  {
    PaintKeeps(a, bh, t, r, i, ci);
    PaintKeeps(Paint(a, i, ci), bh, t, r, j, cj);
    PaintKeeps(Paint(Paint(a, i, ci), j, cj), bh, t, r, k, ck);
  }

  // ---------------------------------------------------------------------------
  // InsertNode and InsertFixup, one step at a time

  /**
   * The leaf InsertNode hangs under p, where the key descent ended, is a
   * Red node of black height 1: the tree becomes InsertAt's shape and is
   * in the state InsertFixup starts from, with exactly the new key added.
   */
  lemma InsertLeaf(a: seq<Node<Color>>, bh: seq<nat>, t: Shape, r: nat, key: int, p: nat, b: seq<Node<Color>>)
    requires RedBlackState(a, bh, t, r) && key !in Elems(KeySeq(a, t))
    requires p == 0 ==> t == Nil
    requires p != 0 ==> p in Ids(t) && p < |a| && (if key < a[p].key then a[p].left else a[p].right) == 0
    requires p != 0 ==> InsertAt(a, t, key, |a|) == Replace(t, p, InsertAt(a, Sub(t, p), key, |a|))
    requires |b| == |a| + 1 && b[|a|] == Node(key, 0, 0, p, Red) && b[0] == a[0]
    requires forall i :: 0 <= i < |a| && i != p ==> b[i] == a[i]
    requires p != 0 ==> b[p] == if key < a[p].key then a[p].(left := |a|) else a[p].(right := |a|)
    ensures InsertState(b, bh + [1], InsertAt(a, t, key, |a|), if p == 0 then |a| else r, |a|)
    ensures Ids(InsertAt(a, t, key, |a|)) == Ids(t) + {|a|}
    ensures Elems(KeySeq(b, InsertAt(a, t, key, |a|))) == Elems(KeySeq(a, t)) + {key}
  {
    var n := |a|;
    LinkedBounds(a, t, 0);
    AttachLinked(a, b, t, key, p);
    InsertAtKeys(a, b, t, key, n);
    InsertAtIds(a, t, key, n);
    LinksWithin(a, t, 0);
    AttachColouring(a, bh, Ids(t), key, p, b, bh + [1]);
    SpliceSites(b, InsertAt(a, t, key, n), n);
    if p != 0 {
      assert Col(b, r) == Col(a, r);
    }
  }

  /**
   * Where InsertFixup looks when z's parent p is Red: p is not the root,
   * so the grandparent gp is a node, and z is a child of p.
   */
  lemma InsertSites(a: seq<Node<Color>>, bh: seq<nat>, t: Shape, r: nat, z: nat)
    requires InsertState(a, bh, t, r, z) && Col(a, a[z].parent) == Red
    ensures z != Root(t) && a[z].parent != Root(t)
    ensures var p := a[z].parent; p in Ids(t) && p < |a| && (a[p].left == z || a[p].right == z)
    ensures var p := a[z].parent; var gp := a[p].parent;
      gp in Ids(t) && gp < |a| && gp != 0 && (a[gp].left == p || a[gp].right == p)
    ensures var gp := a[a[z].parent].parent; a[gp].left < |a| && a[gp].right < |a|
  {
    assert a[0].data == Black;
    SpliceSites(a, t, z);
    var p := a[z].parent;
    SpliceSites(a, t, p);
    Lineage(a, t, z);
    ChildLinks(a, t, 0, a[p].parent);
  }

  /**
   * Case 1 on either side: p and the uncle u are Red.  They turn Black,
   * gp turns Red with one more black node below it, and the work moves up
   * to gp.
   */
  lemma InsertStep1(a: seq<Node<Color>>, bh: seq<nat>, t: Shape, r: nat, z: nat, p: nat, gp: nat, u: nat,
                    b: seq<Node<Color>>, bh': seq<nat>)
    requires InsertState(a, bh, t, r, z) && p == a[z].parent && p < |a| && Col(a, p) == Red
    requires gp == a[p].parent && gp < |a| && u == (if p == a[gp].left then a[gp].right else a[gp].left)
    requires u < |a| && Col(a, u) == Red
    requires b == Paint(Paint(Paint(a, p, Black), u, Black), gp, Red) && bh' == bh[gp := bh[gp] + 1]
    ensures InsertState(b, bh', t, r, gp) && Depth(t, gp) < Depth(t, z) && KeySeq(b, t) == KeySeq(a, t)
  {
    InsertSites(a, bh, t, r, z);
    Lineage(a, t, z);
    InsertColours1(a, bh, t, r, z, p, gp, u, b, bh');
    PaintKeeps3(a, bh', t, r, p, Black, u, Black, gp, Red);
    SpliceSites(b, t, gp);
  }

  /** The colouring half of InsertStep1, with the parent p, grandparent gp and uncle u named. */
  lemma InsertColours1(a: seq<Node<Color>>, bh: seq<nat>, t: Shape, r: nat, z: nat, p: nat, gp: nat, u: nat,
                       b: seq<Node<Color>>, bh': seq<nat>)
    requires InsertState(a, bh, t, r, z) && p == a[z].parent && p < |a| && Col(a, p) == Red
    requires gp == a[p].parent && gp < |a| && u == (if p == a[gp].left then a[gp].right else a[gp].left)
    requires u < |a| && Col(a, u) == Red
    requires b == Paint(Paint(Paint(a, p, Black), u, Black), gp, Red) && bh' == bh[gp := bh[gp] + 1]
    ensures LocallyRedBlack(b, bh', Ids(t), gp) && Col(b, gp) == Red && (Col(b, r) == Black || gp == r)
  {
    InsertSites(a, bh, t, r, z);
    Lineage(a, t, z);
    LinkedParented(a, t);
    assert u != 0 by {
      assert a[0].data == Black;
    }
    Recolour(a, p, Black, u, Black, gp, Red);
    Raise(bh, gp, bh');
    InsertCase1(a, bh, Ids(t), z, p, u, gp, b, bh');
  }

  /**
   * Case 2, parent on the left: z is p's right child.  After the left
   * rotation at p, p is a Red left child of z, and z a left child of gp,
   * whose right child is the same.
   */
  lemma InsertStep2Left(a: seq<Node<Color>>, bh: seq<nat>, t: Shape, r: nat, z: nat, b: seq<Node<Color>>, t': Shape)
    requires InsertState(a, bh, t, r, z) && Col(a, a[z].parent) == Red
    requires a[z].parent < |a| && a[a[z].parent].parent < |a|
    requires z == a[a[z].parent].right && a[z].parent == a[a[a[z].parent].parent].left
    requires LeftRotated(a, b, a[z].parent) && t' == RotateLeftShape(t, a[z].parent)
    requires SearchTree(b, bh, t', r) && Ids(t') == Ids(t)
    ensures var p := a[z].parent; var gp := a[p].parent;
      && InsertState(b, bh, t', r, p) && Col(b, b[p].parent) == Red
      && b[p].parent == z && b[z].left == p && b[z].parent == gp && gp < |b| && b[gp].left == z
      && Col(b, b[gp].right) == Col(a, a[gp].right)
  {
    InsertSites(a, bh, t, r, z);
    Lineage(a, t, z);
    LinkedParented(a, t);
    var p := a[z].parent;
    var gp := a[p].parent;
    InsertCase2Left(a, bh, Ids(t), z, p, gp, b);
    RotatedColours(a, b, bh, p);
    SpliceSites(a, t, z);
  }

  /** The mirror image of InsertStep2Left. */
  lemma InsertStep2Right(a: seq<Node<Color>>, bh: seq<nat>, t: Shape, r: nat, z: nat, b: seq<Node<Color>>, t': Shape)
    requires InsertState(a, bh, t, r, z) && Col(a, a[z].parent) == Red
    requires a[z].parent < |a| && a[a[z].parent].parent < |a|
    requires z == a[a[z].parent].left && a[z].parent == a[a[a[z].parent].parent].right
    requires RightRotated(a, b, a[z].parent) && t' == RotateRightShape(t, a[z].parent)
    requires SearchTree(b, bh, t', r) && Ids(t') == Ids(t)
    ensures var p := a[z].parent; var gp := a[p].parent;
      && InsertState(b, bh, t', r, p) && Col(b, b[p].parent) == Red
      && b[p].parent == z && b[z].right == p && b[z].parent == gp && gp < |b| && b[gp].right == z
      && Col(b, b[gp].left) == Col(a, a[gp].left)
  {
    InsertSites(a, bh, t, r, z);
    Lineage(a, t, z);
    LinkedParented(a, t);
    var p := a[z].parent;
    var gp := a[p].parent;
    InsertCase2Right(a, bh, Ids(t), z, p, gp, b);
    RotatedColours(a, b, bh, p);
    SpliceSites(a, t, z);
  }

  /**
   * Case 3, parent on the left: z is p's left child and the uncle is
   * Black.  p turns Black, gp Red, and after the right rotation at gp the
   * tree is red-black but for a Red root, and z's parent is Black.
   */
  lemma InsertStep3Left(a: seq<Node<Color>>, bh: seq<nat>, t: Shape, r: nat, z: nat, p: nat, gp: nat,
                        a1: seq<Node<Color>>, b: seq<Node<Color>>, t': Shape, r': nat)
    requires InsertState(a, bh, t, r, z) && p == a[z].parent && p < |a| && Col(a, p) == Red
    requires gp == a[p].parent && gp < |a| && z == a[p].left && p == a[gp].left && Col(a, a[gp].right) == Black
    requires a1 == Paint(Paint(a, p, Black), gp, Red)
    requires RightRotated(a1, b, gp) && t' == RotateRightShape(t, gp)
    requires SearchTree(b, bh, t', r') && Ids(t') == Ids(t)
    requires r' == if a[gp].parent == 0 then p else r
    ensures InsertState(b, bh, t', r', z) && Col(b, b[z].parent) == Black
  {
    InsertSites(a, bh, t, r, z);
    Lineage(a, t, z);
    LinkedParented(a, t);
    Recolour2(a, p, Black, gp, Red);
    InsertCase3Left(a, bh, Ids(t), z, p, gp, a1, b);
    RotatedColours(a1, b, bh, gp);
    ChildLinks(a, t, 0, p);
    SpliceSites(a, t, p);
    SpliceSites(a, t, gp);
    assert b[z] == a1[z] && b[z].parent == p;
    assert Col(b, z) == Red && Col(b, p) == Black;
    assert Col(b, r') == Black by {
      if a[gp].parent != 0 {
        assert r' == r && r != p && r != gp && Col(a, r) == Black;
      }
    }
    AnyException(b, bh, Ids(t), z);
  }

  /** The mirror image of InsertStep3Left. */
  lemma InsertStep3Right(a: seq<Node<Color>>, bh: seq<nat>, t: Shape, r: nat, z: nat, p: nat, gp: nat,
                        a1: seq<Node<Color>>, b: seq<Node<Color>>, t': Shape, r': nat)
    requires InsertState(a, bh, t, r, z) && p == a[z].parent && p < |a| && Col(a, p) == Red
    requires gp == a[p].parent && gp < |a| && z == a[p].right && p == a[gp].right && Col(a, a[gp].left) == Black
    requires a1 == Paint(Paint(a, p, Black), gp, Red)
    requires LeftRotated(a1, b, gp) && t' == RotateLeftShape(t, gp)
    requires SearchTree(b, bh, t', r') && Ids(t') == Ids(t)
    requires r' == if a[gp].parent == 0 then p else r
    ensures InsertState(b, bh, t', r', z) && Col(b, b[z].parent) == Black
  {
    InsertSites(a, bh, t, r, z);
    Lineage(a, t, z);
    LinkedParented(a, t);
    Recolour2(a, p, Black, gp, Red);
    InsertCase3Right(a, bh, Ids(t), z, p, gp, a1, b);
    RotatedColours(a1, b, bh, gp);
    ChildLinks(a, t, 0, p);
    SpliceSites(a, t, p);
    SpliceSites(a, t, gp);
    assert b[z] == a1[z] && b[z].parent == p;
    assert Col(b, z) == Red && Col(b, p) == Black;
    assert Col(b, r') == Black by {
      if a[gp].parent != 0 {
        assert r' == r && r != p && r != gp && Col(a, r) == Black;
      }
    }
    AnyException(b, bh, Ids(t), z);
  }

  /** When z's parent is Black, making the root Black ends InsertFixup with a red-black tree. */
  lemma InsertDone(a: seq<Node<Color>>, bh: seq<nat>, t: Shape, r: nat, z: nat, b: seq<Node<Color>>)
    requires InsertState(a, bh, t, r, z) && Col(a, a[z].parent) == Black
    requires b == Paint(a, r, Black)
    ensures RedBlackState(b, bh, t, r) && RedBlackTree(b, t) && KeySeq(b, t) == KeySeq(a, t)
  {
    LinkedBounds(a, t, 0);
    assert r in Ids(t);
    SpliceSites(a, t, r);
    LinkedParented(a, t);
    FixupDone(a, bh, Ids(t), z, r, b);
    DataChanged(a, b, t);
    RedBlackStateProperties(b, bh, t, r);
  }

  // ---------------------------------------------------------------------------
  // RemoveNode and RemoveFixup, one step at a time

  /**
   * b is a with y cut out: y's only child x (possibly nil) takes y's
   * parent, and y's parent names x where it named y.  Nothing else changes.
   */
  ghost predicate CutOut(a: seq<Node<Color>>, b: seq<Node<Color>>, y: nat)
  {
    && y < |a| && a[y].parent < |a| && OnlyChild(a, y) < |a| && |b| == |a|
    && var x, pp := OnlyChild(a, y), a[y].parent;
    && b[x] == a[x].(parent := pp)
    && (pp != 0 ==> b[pp] == if a[pp].left == y then a[pp].(left := x) else a[pp].(right := x))
    && forall i :: 0 <= i < |a| && i != x && (pp == 0 || i != pp) ==> b[i] == a[i]
  }

  /** Cutting out rewrites links only. */
  lemma CutFields(a: seq<Node<Color>>, b: seq<Node<Color>>, y: nat)
    requires CutOut(a, b, y)
    ensures forall j :: 0 <= j < |a| ==> b[j].key == a[j].key && b[j].data == a[j].data
    ensures forall j: nat :: Col(b, j) == Col(a, j)
  {
    var x, pp := OnlyChild(a, y), a[y].parent;
    forall j: nat ensures Col(b, j) == Col(a, j) && (j < |a| ==> b[j].key == a[j].key && b[j].data == a[j].data) {
      if j >= |a| {
      } else if j == x {
        assert b[j] == a[j].(parent := pp);
      } else if j == pp && pp != 0 {
        assert b[j].key == a[j].key && b[j].data == a[j].data;
      } else {
        assert b[j] == a[j];
      }
    }
  }

  /**
   * Cutting out a Black y leaves one black node missing below y's parent
   * pp on x's side: RemoveFixup's starting point.
   */
  lemma CutBlack(a: seq<Node<Color>>, bh: seq<nat>, S: set<nat>, y: nat, b: seq<Node<Color>>)
    requires LocallyRedBlack(a, bh, S, 0) && Parented(a, S) && CutOut(a, b, y)
    requires y in S && Col(a, y) == Black && (a[y].left == 0 || a[y].right == 0)
    requires OnlyChild(a, y) == 0 || OnlyChild(a, y) in S
    requires a[y].parent != 0 ==> a[y].parent in S && (a[a[y].parent].left == y || a[a[y].parent].right == y)
    requires OnlyChild(a, y) != 0 ==> OnlyChild(a, y) != a[y].parent
    ensures RemoveColouring(b, bh, S - {y}, OnlyChild(a, y), a[y].parent)
  {
    var x, pp := OnlyChild(a, y), a[y].parent;
    CutFields(a, b, y);
    assert b[0].data == a[0].data;
    assert BlackOK(a, bh, y) && Contrib(a, bh, x) == Bh(bh, y);
    forall i | i in S - {y} ensures (i == pp || BlackOK(b, bh, i)) && RedOK(b, i, x, x) {
      assert BlackOK(a, bh, i) && RedOK(a, i, 0, 0);
      if i != pp {
        assert b[i].left == a[i].left && b[i].right == a[i].right;
      }
    }
    if pp != 0 {
      assert BlackOK(a, bh, pp);
      assert Contrib(a, bh, 0) == 1;
      if a[pp].left != y {
        assert x != a[pp].left by {
          if x != 0 {
            assert a[x].parent == y;
          } else {
            assert Contrib(a, bh, a[pp].left) == Contrib(a, bh, y);
          }
        }
      }
      assert Sibling(b, x, pp) == Sibling(a, y, pp);
      assert Deficit(b, bh, x, pp);
    }
  }

  /** Cutting out a Red y, whose parent is Black, keeps every black height. */
  lemma CutRed(a: seq<Node<Color>>, bh: seq<nat>, S: set<nat>, y: nat, b: seq<Node<Color>>)
    requires LocallyRedBlack(a, bh, S, 0) && Parented(a, S) && CutOut(a, b, y)
    requires y in S && Col(a, y) == Red && (a[y].left == 0 || a[y].right == 0)
    requires OnlyChild(a, y) == 0 || OnlyChild(a, y) in S
    requires a[y].parent in S && (a[a[y].parent].left == y || a[a[y].parent].right == y)
    requires OnlyChild(a, y) != a[y].parent
    ensures LocallyRedBlack(b, bh, S - {y}, 0)
  {
    var x, pp := OnlyChild(a, y), a[y].parent;
    CutFields(a, b, y);
    assert b[0].data == a[0].data;
    assert BlackOK(a, bh, y) && Contrib(a, bh, x) == Contrib(a, bh, y);
    assert Col(a, pp) == Black by {
      assert RedOK(a, pp, 0, 0);
    }
    assert BlackOK(a, bh, pp);
    forall i | i in S - {y} ensures BlackOK(b, bh, i) && RedOK(b, i, 0, 0) {
      assert BlackOK(a, bh, i) && RedOK(a, i, 0, 0);
      if i != pp {
        assert b[i].left == a[i].left && b[i].right == a[i].right;
      }
    }
  }

  /**
   * The colouring while RemoveFixup works on x: x is nil or a node, its
   * parent (nil's parent link included) is a node unless x is the root,
   * the facts of RemoveColouring hold there, and the root is Black unless
   * it is x.
   */
  ghost predicate Removing(a: seq<Node<Color>>, bh: seq<nat>, t: Shape, r: nat, x: nat)
  {
    RemovingIn(a, bh, Ids(t), r, x)
  }

  /** Removing, over the set S of the tree's nodes. */
  ghost predicate RemovingIn(a: seq<Node<Color>>, bh: seq<nat>, S: set<nat>, r: nat, x: nat)
  {
    && (x == 0 || x in S) && x < |a| && (x != r ==> a[x].parent in S)
    && RemoveColouring(a, bh, S, x, if x == r then 0 else a[x].parent)
    && (Col(a, r) == Black || x == r)
  }

  /** The state RemoveFixup works in. */
  ghost predicate RemoveState(a: seq<Node<Color>>, bh: seq<nat>, t: Shape, r: nat, x: nat)
  {
    SearchTree(a, bh, t, r) && Removing(a, bh, t, r, x)
  }

  /** RemoveFixup's loop measure: 0 once it stops, otherwise the depth of x below the root. */
  ghost function RemoveMeasure(a: seq<Node<Color>>, t: Shape, r: nat, x: nat): nat
  {
    if x == r || x >= |a| || Col(a, x) == Red then 0 else Depth(t, a[x].parent) + 1
  }

  /**
   * The splice of RemoveNode: with y cut out the tree is SpliceShape's,
   * rooted at x when y was the root.  A Red y leaves a red-black tree; a
   * Black y leaves the state RemoveFixup starts from, at x.
   */
  lemma SpliceColouring(a: seq<Node<Color>>, bh: seq<nat>, t: Shape, r: nat, y: nat, b: seq<Node<Color>>)
    requires RedBlackState(a, bh, t, r) && y in Ids(t) && y < |a| && (a[y].left == 0 || a[y].right == 0)
    requires CutOut(a, b, y)
    ensures var t', r' := SpliceShape(a, t, y), if a[y].parent == 0 then OnlyChild(a, y) else r;
      && WellLinked(b, t') && r' == Root(t') && r' < |b| && Ids(t') == Ids(t) - {y}
      && (forall i :: 0 <= i < |b| ==> b[i].key == a[i].key && b[i].data == a[i].data)
      && (Col(a, y) == Black ==> Removing(b, bh, t', r', OnlyChild(a, y)))
      && (Col(a, y) == Red ==> LocallyRedBlack(b, bh, Ids(t'), 0) && Col(b, r') == Black)
  {
    SpliceSites(a, t, y);
    SpliceLinked(a, b, t, y);
    CutFields(a, b, y);
    CutColouring(a, bh, t, r, y, b);
  }

  /** The colouring half of SpliceColouring, over the remaining nodes. */
  lemma CutColouring(a: seq<Node<Color>>, bh: seq<nat>, t: Shape, r: nat, y: nat, b: seq<Node<Color>>)
    requires RedBlackState(a, bh, t, r) && y in Ids(t) && y < |a| && (a[y].left == 0 || a[y].right == 0)
    requires CutOut(a, b, y)
    ensures var x, r' := OnlyChild(a, y), if a[y].parent == 0 then OnlyChild(a, y) else r;
      && (Col(a, y) == Black ==> RemovingIn(b, bh, Ids(t) - {y}, r', x))
      && (Col(a, y) == Red ==> LocallyRedBlack(b, bh, Ids(t) - {y}, 0) && Col(b, r') == Black)
  {
    var x, pp := OnlyChild(a, y), a[y].parent;
    SpliceSites(a, t, y);
    ChildLinks(a, t, 0, y);
    if x != 0 {
      SpliceSites(a, t, x);
    }
    if pp != 0 {
      ParentLinks(a, t, y);
    }
    LinkedParented(a, t);
    CutFields(a, b, y);
    LinkedBounds(a, t, 0);
    if Col(a, y) == Black {
      CutBlack(a, bh, Ids(t), y, b);
    } else {
      CutRed(a, bh, Ids(t), y, b);
    }
  }

  /** Copying a key into a node changes no link and no colour. */
  lemma KeyCopied(c: seq<Node<Color>>, b: seq<Node<Color>>, bh: seq<nat>, t: Shape, r: nat, x: nat)
    requires |b| == |c| && forall i :: 0 <= i < |c| ==> SameLinks(c[i], b[i]) && b[i].data == c[i].data
    requires WellLinked(c, t)
    ensures WellLinked(b, t) && forall j: nat :: Col(b, j) == Col(c, j)
    ensures Removing(c, bh, t, r, x) ==> Removing(b, bh, t, r, x)
    ensures LocallyRedBlack(c, bh, Ids(t), 0) ==> LocallyRedBlack(b, bh, Ids(t), 0)
  {
    LinkedFrame(c, b, t, 0);
    assert forall j: nat :: Col(b, j) == Col(c, j);
    if Removing(c, bh, t, r, x) {
      KeyCopiedRemoving(c, b, bh, t, r, x);
    }
    if LocallyRedBlack(c, bh, Ids(t), 0) {
      KeyCopiedRedBlack(c, b, bh, Ids(t));
    }
  }

  /** The Removing half of KeyCopied. */
  lemma KeyCopiedRemoving(c: seq<Node<Color>>, b: seq<Node<Color>>, bh: seq<nat>, t: Shape, r: nat, x: nat)
    requires |b| == |c| && forall i :: 0 <= i < |c| ==> SameLinks(c[i], b[i]) && b[i].data == c[i].data
    requires forall j: nat :: Col(b, j) == Col(c, j)
    requires Removing(c, bh, t, r, x)
    ensures Removing(b, bh, t, r, x)
  {
    var S := Ids(t);
    var xp := if x == r then 0 else c[x].parent;
    forall i | i in S ensures (i == xp || BlackOK(b, bh, i)) && RedOK(b, i, x, x) {
      assert (i == xp || BlackOK(c, bh, i)) && RedOK(c, i, x, x);
      assert SameLinks(c[i], b[i]);
    }
    if xp != 0 {
      assert Deficit(c, bh, x, xp) && SameLinks(c[xp], b[xp]);
    }
  }

  /** The LocallyRedBlack half of KeyCopied. */
  lemma KeyCopiedRedBlack(c: seq<Node<Color>>, b: seq<Node<Color>>, bh: seq<nat>, S: set<nat>)
    requires |b| == |c| && forall i :: 0 <= i < |c| ==> SameLinks(c[i], b[i]) && b[i].data == c[i].data
    requires forall j: nat :: Col(b, j) == Col(c, j)
    requires LocallyRedBlack(c, bh, S, 0)
    ensures LocallyRedBlack(b, bh, S, 0)
  {
    forall i | i in S ensures BlackOK(b, bh, i) && RedOK(b, i, 0, 0) {
      assert BlackOK(c, bh, i) && RedOK(c, i, 0, 0);
      assert SameLinks(c[i], b[i]);
    }
  }

  /**
   * The family of x, a child (possibly nil) of the node xp with a non-nil
   * sibling s: s, s's children and xp's parent are where RemoveFixup looks,
   * and they are distinct where they are nodes.
   */
  lemma Kin<D>(a: seq<Node<D>>, t: Shape, x: nat, xp: nat)
    requires WellLinked(a, t) && xp in Ids(t) && xp < |a| && x < |a| && (x == 0 || x in Ids(t))
    requires (x == a[xp].left || x == a[xp].right) && Sibling(a, x, xp) != 0
    ensures var s := Sibling(a, x, xp);
      && s in Ids(t) && s < |a| && a[s].parent == xp && s != xp && s != x && s != Root(t)
      && a[s].left < |a| && a[s].right < |a|
      && (a[s].left != 0 ==> a[s].left in Ids(t) && a[a[s].left].parent == s && a[s].left != xp && a[s].left != x && a[s].left != Root(t))
      && (a[s].right != 0 ==> a[s].right in Ids(t) && a[a[s].right].parent == s && a[s].right != xp && a[s].right != x && a[s].right != Root(t))
      && (a[s].left != 0 ==> a[s].left != a[s].right) && a[s].left != s && a[s].right != s
    ensures var s, pp := Sibling(a, x, xp), a[xp].parent;
      && pp < |a| && pp != xp && pp != s && (x != 0 ==> pp != x && a[x].parent == xp && x != xp)
      && (a[s].left != 0 ==> pp != a[s].left) && (a[s].right != 0 ==> pp != a[s].right)
      && (pp != 0 ==> pp in Ids(t) && (a[pp].left == xp || a[pp].right == xp))
      && (pp == 0 <==> xp == Root(t))
  {
    LinkedBounds(a, t, 0);
    var s := Sibling(a, x, xp);
    ChildLinks(a, t, 0, xp);
    SpliceSites(a, t, s);
    ParentLinks(a, t, s);
    ChildLinks(a, t, 0, s);
    if a[s].left != 0 {
      SpliceSites(a, t, a[s].left);
      ParentLinks(a, t, a[s].left);
    }
    if a[s].right != 0 {
      SpliceSites(a, t, a[s].right);
      ParentLinks(a, t, a[s].right);
    }
    if x != 0 {
      SpliceSites(a, t, x);
      ParentLinks(a, t, x);
    }
    SpliceSites(a, t, xp);
    if a[xp].parent != 0 {
      ParentLinks(a, t, xp);
    }
  }

  /**
   * Where RemoveFixup looks while x is a Black node other than the root:
   * x's parent xp is a node with x as a child, and x's sibling is a node
   * too, because it carries one more black node than x.
   */
  lemma RemoveSites(a: seq<Node<Color>>, bh: seq<nat>, t: Shape, r: nat, x: nat)
    requires RemoveState(a, bh, t, r, x) && x != r && Col(a, x) == Black
    ensures a[0].data == Black && x < |a|
    ensures var xp := a[x].parent;
      && xp in Ids(t) && xp != 0 && xp < |a| && xp < |bh| && bh[xp] >= 1 && (x == a[xp].left || x == a[xp].right)
      && a[xp].parent < |a| && (a[xp].parent == 0 <==> xp == r)
    ensures var xp := a[x].parent; var s := Sibling(a, x, xp);
      s != 0 && s in Ids(t) && s < |a| && a[s].parent == xp && a[s].left < |a| && a[s].right < |a|
  {
    var xp := a[x].parent;
    LinkedBounds(a, t, 0);
    assert Deficit(a, bh, x, xp);
    assert Contrib(a, bh, 0) == 1;
    Kin(a, t, x, xp);
  }

  /**
   * Case 1, x on the left: the Red sibling s turns Black, xp Red, and the
   * left rotation at xp leaves x under a Red xp with a Black sibling.
   */
  lemma RemoveStep1Left(a: seq<Node<Color>>, bh: seq<nat>, t: Shape, r: nat, x: nat,
                        a1: seq<Node<Color>>, b: seq<Node<Color>>, t': Shape, r': nat)
    requires RemoveState(a, bh, t, r, x) && x != r && Col(a, x) == Black
    requires x < |a| && a[x].parent < |a| && x == a[a[x].parent].left && Col(a, a[a[x].parent].right) == Red
    requires a1 == Paint(Paint(a, a[a[x].parent].right, Black), a[x].parent, Red)
    requires LeftRotated(a1, b, a[x].parent) && t' == RotateLeftShape(t, a[x].parent)
    requires SearchTree(b, bh, t', r') && Ids(t') == Ids(t)
    requires r' == if a[a[x].parent].parent == 0 then a[a[x].parent].right else r
    ensures RemoveState(b, bh, t', r', x) && x != r' && b[x].parent == a[x].parent
    ensures var xp := a[x].parent; x == b[xp].left && Col(b, xp) == Red && Col(b, b[xp].right) == Black
    ensures Col(b, x) == Black
  {
    RemoveSites(a, bh, t, r, x);
    var xp := a[x].parent;
    var s := a[xp].right;
    Kin(a, t, x, xp);
    LinkedParented(a, t);
    Recolour2(a, s, Black, xp, Red);
    RemoveCase1Left(a, bh, Ids(t), x, xp, a1, b);
    RotatedColours(a1, b, bh, xp);
  }

  /** The mirror image of RemoveStep1Left. */
  lemma RemoveStep1Right(a: seq<Node<Color>>, bh: seq<nat>, t: Shape, r: nat, x: nat,
                         a1: seq<Node<Color>>, b: seq<Node<Color>>, t': Shape, r': nat)
    requires RemoveState(a, bh, t, r, x) && x != r && Col(a, x) == Black
    requires x < |a| && a[x].parent < |a| && x == a[a[x].parent].right && x != a[a[x].parent].left
    requires Col(a, a[a[x].parent].left) == Red
    requires a1 == Paint(Paint(a, a[a[x].parent].left, Black), a[x].parent, Red)
    requires RightRotated(a1, b, a[x].parent) && t' == RotateRightShape(t, a[x].parent)
    requires SearchTree(b, bh, t', r') && Ids(t') == Ids(t)
    requires r' == if a[a[x].parent].parent == 0 then a[a[x].parent].left else r
    ensures RemoveState(b, bh, t', r', x) && x != r' && b[x].parent == a[x].parent
    ensures var xp := a[x].parent; x == b[xp].right && x != b[xp].left && Col(b, xp) == Red && Col(b, b[xp].left) == Black
    ensures Col(b, x) == Black
  {
    RemoveSites(a, bh, t, r, x);
    var xp := a[x].parent;
    var s := a[xp].left;
    Kin(a, t, x, xp);
    LinkedParented(a, t);
    Recolour2(a, s, Black, xp, Red);
    RemoveCase1Right(a, bh, Ids(t), x, xp, a1, b);
    RotatedColours(a1, b, bh, xp);
  }

  /**
   * Case 2, either side: the sibling s and its children are Black.  s
   * turns Red, xp carries one black node fewer, and the work moves up to
   * xp, closer to the root.
   */
  lemma RemoveStep2(a: seq<Node<Color>>, bh: seq<nat>, t: Shape, r: nat, x: nat, xp: nat, s: nat,
                    b: seq<Node<Color>>, bh': seq<nat>)
    requires RemoveState(a, bh, t, r, x) && x != r && Col(a, x) == Black
    requires x < |a| && xp == a[x].parent && xp < |a| && s == Sibling(a, x, xp) && s < |a|
    requires Col(a, s) == Black && Col(a, a[s].left) == Black && Col(a, a[s].right) == Black
    requires b == Paint(a, s, Red)
    requires xp < |bh| && bh[xp] >= 1 && bh' == bh[xp := bh[xp] - 1]
    ensures RemoveState(b, bh', t, r, xp) && Col(b, xp) == Col(a, xp)
    ensures RemoveMeasure(b, t, r, xp) < RemoveMeasure(a, t, r, x)
    ensures KeySeq(b, t) == KeySeq(a, t)
  {
    RemoveSites(a, bh, t, r, x);
    PaintKeeps(a, bh, t, r, s, Red);
    RemoveColours2(a, bh, t, r, x, xp, s, b, bh');
    if xp != r {
      ParentLinks(a, t, xp);
    }
  }

  /** The colouring half of RemoveStep2. */
  lemma RemoveColours2(a: seq<Node<Color>>, bh: seq<nat>, t: Shape, r: nat, x: nat, xp: nat, s: nat,
                       b: seq<Node<Color>>, bh': seq<nat>)
    requires RemoveState(a, bh, t, r, x) && x != r && Col(a, x) == Black
    requires x < |a| && xp == a[x].parent && xp < |a| && s == Sibling(a, x, xp) && s < |a|
    requires Col(a, s) == Black && Col(a, a[s].left) == Black && Col(a, a[s].right) == Black
    requires b == Paint(a, s, Red)
    requires xp < |bh| && bh[xp] >= 1 && bh' == bh[xp := bh[xp] - 1]
    ensures Removing(b, bh', t, r, xp)
  {
    RemoveSites(a, bh, t, r, x);
    Kin(a, t, x, xp);
    LinkedParented(a, t);
    assert RemoveColouring(a, bh, Ids(t), x, xp);
    assert Recoloured(a, b, s, s, s) && Col(b, s) == Red;
    Lower(bh, xp, bh');
    RemoveCase2(a, bh, Ids(t), x, xp, s, b, bh');
    if xp != r {
      SubLinked(a, t, 0, xp);
    }
  }

  /**
   * Case 3, x on the left: the Black sibling s has a Red left and a Black
   * right child.  s's left child turns Black, s Red, and the right rotation
   * at s gives x a Black sibling with a Red right child.
   */
  lemma RemoveStep3Left(a: seq<Node<Color>>, bh: seq<nat>, t: Shape, r: nat, x: nat,
                        a1: seq<Node<Color>>, b: seq<Node<Color>>, t': Shape)
    requires RemoveState(a, bh, t, r, x) && x != r && Col(a, x) == Black
    requires x < |a| && a[x].parent < |a| && x == a[a[x].parent].left
    requires var s := a[a[x].parent].right;
      s < |a| && Col(a, s) == Black && Col(a, a[s].left) == Red && Col(a, a[s].right) == Black
    requires var s := a[a[x].parent].right; a1 == Paint(Paint(a, a[s].left, Black), s, Red)
    requires RightRotated(a1, b, a[a[x].parent].right) && t' == RotateRightShape(t, a[a[x].parent].right)
    requires SearchTree(b, bh, t', r) && Ids(t') == Ids(t)
    ensures RemoveState(b, bh, t', r, x) && b[x].parent == a[x].parent && Col(b, x) == Black
    ensures var xp := a[x].parent;
      x == b[xp].left && b[xp].right < |b| && Col(b, b[xp].right) == Black && Col(b, b[b[xp].right].right) == Red
  {
    RemoveSites(a, bh, t, r, x);
    var xp := a[x].parent;
    var s := a[xp].right;
    var sl := a[s].left;
    Kin(a, t, x, xp);
    ChildLinks(a, t, 0, sl);
    LinkedParented(a, t);
    Recolour2(a, sl, Black, s, Red);
    RemoveCase3Left(a, bh, Ids(t), x, xp, s, a1, b);
    RotatedColours(a1, b, bh, s);
  }

  /** The mirror image of RemoveStep3Left. */
  lemma RemoveStep3Right(a: seq<Node<Color>>, bh: seq<nat>, t: Shape, r: nat, x: nat,
                         a1: seq<Node<Color>>, b: seq<Node<Color>>, t': Shape)
    requires RemoveState(a, bh, t, r, x) && x != r && Col(a, x) == Black
    requires x < |a| && a[x].parent < |a| && x == a[a[x].parent].right && x != a[a[x].parent].left
    requires var s := a[a[x].parent].left;
      s < |a| && Col(a, s) == Black && Col(a, a[s].right) == Red && Col(a, a[s].left) == Black
    requires var s := a[a[x].parent].left; a1 == Paint(Paint(a, a[s].right, Black), s, Red)
    requires LeftRotated(a1, b, a[a[x].parent].left) && t' == RotateLeftShape(t, a[a[x].parent].left)
    requires SearchTree(b, bh, t', r) && Ids(t') == Ids(t)
    ensures RemoveState(b, bh, t', r, x) && b[x].parent == a[x].parent && Col(b, x) == Black
    ensures var xp := a[x].parent;
      x == b[xp].right && x != b[xp].left && b[xp].left < |b| && Col(b, b[xp].left) == Black && Col(b, b[b[xp].left].left) == Red
  {
    RemoveSites(a, bh, t, r, x);
    var xp := a[x].parent;
    var s := a[xp].left;
    var sr := a[s].right;
    Kin(a, t, x, xp);
    ChildLinks(a, t, 0, sr);
    LinkedParented(a, t);
    Recolour2(a, sr, Black, s, Red);
    RemoveCase3Right(a, bh, Ids(t), x, xp, s, a1, b);
    RotatedColours(a1, b, bh, s);
  }

  /** A red-black tree is the state RemoveFixup stops in, at the root. */
  lemma Settled(a: seq<Node<Color>>, bh: seq<nat>, t: Shape, r: nat)
    requires RedBlackState(a, bh, t, r)
    ensures RemoveState(a, bh, t, r, r)
  {
    LinkedBounds(a, t, 0);
    forall i | i in Ids(t) ensures RedOK(a, i, r, r) {
      assert RedOK(a, i, 0, 0);
    }
  }

  /**
   * Case 4, x on the left: the Black sibling s has a Red right child.  s
   * takes xp's colour, xp and s's right child turn Black, and the left
   * rotation at xp leaves a red-black tree.
   */
  lemma RemoveStep4Left(a: seq<Node<Color>>, bh: seq<nat>, t: Shape, r: nat, x: nat, xp: nat, s: nat, c: Color,
                       a1: seq<Node<Color>>, b: seq<Node<Color>>, t': Shape, r': nat, bh': seq<nat>)
    requires RemoveState(a, bh, t, r, x) && x != r && Col(a, x) == Black
    requires x < |a| && xp == a[x].parent && xp < |a| && x == a[xp].left && s == a[xp].right
    requires s < |a| && Col(a, s) == Black && Col(a, a[s].right) == Red && c == Col(a, xp)
    requires a1 == Paint(Paint(Paint(a, s, c), xp, Black), a[s].right, Black)
    requires LeftRotated(a1, b, xp) && t' == RotateLeftShape(t, xp)
    requires xp < |bh| && bh[xp] >= 1 && s < |bh| && bh' == bh[xp := bh[xp] - 1][s := bh[xp]]
    requires SearchTree(b, bh', t', r') && Ids(t') == Ids(t)
    requires r' == if a[xp].parent == 0 then s else r
    ensures RedBlackState(b, bh', t', r') && RemoveState(b, bh', t', r', r')
  {
    RemoveSites(a, bh, t, r, x);
    Kin(a, t, x, a[x].parent);
    RemoveColours4Left(a, bh, t, r, x, xp, s, a1, b, bh');
    Settled(b, bh', t', r');
  }

  /** The colouring half of RemoveStep4Left. */
  lemma RemoveColours4Left(a: seq<Node<Color>>, bh: seq<nat>, t: Shape, r: nat, x: nat, xp: nat, s: nat,
                        a1: seq<Node<Color>>, b: seq<Node<Color>>, bh': seq<nat>)
    requires RemoveState(a, bh, t, r, x) && x != r && Col(a, x) == Black
    requires x < |a| && xp == a[x].parent && xp < |a| && x == a[xp].left && s == a[xp].right
    requires s < |a| && Col(a, s) == Black && Col(a, a[s].right) == Red
    requires a1 == Paint(Paint(Paint(a, s, Col(a, xp)), xp, Black), a[s].right, Black)
    requires LeftRotated(a1, b, xp)
    requires xp < |bh| && bh[xp] >= 1 && s < |bh| && bh' == bh[xp := bh[xp] - 1][s := bh[xp]]
    ensures LocallyRedBlack(b, bh', Ids(t), 0) && Col(b, s) == Col(a, xp)
    ensures forall j: nat :: j != xp && j != s && j != a[s].right ==> Col(b, j) == Col(a, j)
  {
    RemoveSites(a, bh, t, r, x);
    Kin(a, t, x, xp);
    LinkedParented(a, t);
    assert RemoveColouring(a, bh, Ids(t), x, xp);
    Recolour(a, s, Col(a, xp), xp, Black, a[s].right, Black);
    Reheight(bh, xp, s, bh');
    RemoveCase4Left(a, bh, Ids(t), x, xp, s, a1, b, bh');
    RotatedColours(a1, b, bh', xp);
  }

  /** Lowering xp's black height by one and handing its old one to s changes Bh only there. */
  lemma Reheight(bh: seq<nat>, xp: nat, s: nat, bh': seq<nat>)
    requires xp < |bh| && s < |bh| && bh[xp] >= 1 && xp != s && xp != 0 && s != 0 && bh[0] == 0
    requires bh' == bh[xp := bh[xp] - 1][s := bh[xp]]
    ensures Reheighted(bh, bh', xp, s) && Bh(bh', xp) + 1 == Bh(bh, xp) && Bh(bh', s) == Bh(bh, xp) && bh'[0] == 0
  {
  }

  /** The mirror image of RemoveStep4Left. */
  lemma RemoveStep4Right(a: seq<Node<Color>>, bh: seq<nat>, t: Shape, r: nat, x: nat, xp: nat, s: nat, c: Color,
                        a1: seq<Node<Color>>, b: seq<Node<Color>>, t': Shape, r': nat, bh': seq<nat>)
    requires RemoveState(a, bh, t, r, x) && x != r && Col(a, x) == Black
    requires x < |a| && xp == a[x].parent && xp < |a| && x == a[xp].right && x != a[xp].left && s == a[xp].left
    requires s < |a| && Col(a, s) == Black && Col(a, a[s].left) == Red && c == Col(a, xp)
    requires a1 == Paint(Paint(Paint(a, s, c), xp, Black), a[s].left, Black)
    requires RightRotated(a1, b, xp) && t' == RotateRightShape(t, xp)
    requires xp < |bh| && bh[xp] >= 1 && s < |bh| && bh' == bh[xp := bh[xp] - 1][s := bh[xp]]
    requires SearchTree(b, bh', t', r') && Ids(t') == Ids(t)
    requires r' == if a[xp].parent == 0 then s else r
    ensures RedBlackState(b, bh', t', r') && RemoveState(b, bh', t', r', r')
  {
    RemoveSites(a, bh, t, r, x);
    Kin(a, t, x, a[x].parent);
    RemoveColours4Right(a, bh, t, r, x, xp, s, a1, b, bh');
    Settled(b, bh', t', r');
  }

  /** The colouring half of RemoveStep4Right. */
  lemma RemoveColours4Right(a: seq<Node<Color>>, bh: seq<nat>, t: Shape, r: nat, x: nat, xp: nat, s: nat,
                         a1: seq<Node<Color>>, b: seq<Node<Color>>, bh': seq<nat>)
    requires RemoveState(a, bh, t, r, x) && x != r && Col(a, x) == Black
    requires x < |a| && xp == a[x].parent && xp < |a| && x == a[xp].right && x != a[xp].left && s == a[xp].left
    requires s < |a| && Col(a, s) == Black && Col(a, a[s].left) == Red
    requires a1 == Paint(Paint(Paint(a, s, Col(a, xp)), xp, Black), a[s].left, Black)
    requires RightRotated(a1, b, xp)
    requires xp < |bh| && bh[xp] >= 1 && s < |bh| && bh' == bh[xp := bh[xp] - 1][s := bh[xp]]
    ensures LocallyRedBlack(b, bh', Ids(t), 0) && Col(b, s) == Col(a, xp)
    ensures forall j: nat :: j != xp && j != s && j != a[s].left ==> Col(b, j) == Col(a, j)
  {
    RemoveSites(a, bh, t, r, x);
    Kin(a, t, x, xp);
    LinkedParented(a, t);
    assert RemoveColouring(a, bh, Ids(t), x, xp);
    Recolour(a, s, Col(a, xp), xp, Black, a[s].left, Black);
    Reheight(bh, xp, s, bh');
    RemoveCase4Right(a, bh, Ids(t), x, xp, s, a1, b, bh');
    RotatedColours(a1, b, bh', xp);
  }

  /**
   * RemoveFixup's last step at the S level: x is the root, or a Red node
   * carrying the deficit; painting it Black restores every local fact.
   */
  lemma RemoveFinish(a: seq<Node<Color>>, bh: seq<nat>, S: set<nat>, x: nat, xp: nat, b: seq<Node<Color>>)
    requires RemoveColouring(a, bh, S, x, xp) && Parented(a, S) && (x == 0 || x in S) && x < |a|
    requires xp == 0 ==> x == 0 || a[x].parent == 0
    requires xp != 0 ==> xp in S && Col(a, x) == Red && a[x].parent == xp
    requires b == Paint(a, x, Black)
    ensures LocallyRedBlack(b, bh, S, 0)
  {
    assert b[0].data == Black;
    forall i | i in S ensures BlackOK(b, bh, i) && RedOK(b, i, 0, 0) {
      assert (i == xp || BlackOK(a, bh, i)) && RedOK(a, i, x, x);
      assert SameLinks(a[i], b[i]);
      if i == xp {
        assert Deficit(a, bh, x, xp);
        assert x != 0 && Sibling(a, x, xp) != x;
      }
    }
  }

  /** RemoveFixup's end: painting x Black leaves a red-black tree with the same keys. */
  lemma RemoveDone(a: seq<Node<Color>>, bh: seq<nat>, t: Shape, r: nat, x: nat, b: seq<Node<Color>>)
    requires RemoveState(a, bh, t, r, x) && (x == r || Col(a, x) == Red)
    requires b == Paint(a, x, Black)
    ensures RedBlackState(b, bh, t, r) && RedBlackTree(b, t) && KeySeq(b, t) == KeySeq(a, t)
  {
    LinkedParented(a, t);
    if x != 0 && x == r {
      SpliceSites(a, t, x);
    }
    RemoveFinish(a, bh, Ids(t), x, if x == r then 0 else a[x].parent, b);
    DataChanged(a, b, t);
    RedBlackStateProperties(b, bh, t, r);
  }

  // ---------------------------------------------------------------------------
  // The tree

  class RBTree {
    /** The node slots; slot 0 is the sentinel nil, whose parent link removal may write. */
    var nodes: seq<Node<Color>>
    var root: nat
    /** Where each node sits. */
    ghost var shape: Shape
    /** The black height recorded for each slot: the Black nodes below it on a path down to nil, nil included. */
    ghost var bh: seq<nat>

    ghost predicate Linkage()
      reads this
    {
      SearchTree(nodes, bh, shape, root)
    }

    ghost predicate Valid()
      reads this
    {
      RedBlackState(nodes, bh, shape, root)
    }

    /** The keys in in-order: what GetVector returns. */
    ghost function Contents(): seq<int>
      reads this
    {
      KeySeq(nodes, shape)
    }

    /** The empty tree: root is nil, which is Black with key 0. */
    constructor ()
      ensures Valid() && Contents() == [] && root == 0
      ensures nodes == [Node(0, 0, 0, 0, Black)]
    {
      nodes := [Node(0, 0, 0, 0, Black)];
      root := 0;
      shape := Nil;
      bh := [0];
    }

    /** NewNode: a Red node for `key` in a fresh slot, all three links naming nil. */
    method NewNode(key: int) returns (n: nat)
      requires Linkage()
      modifies this
      ensures n == |old(nodes)| && nodes == old(nodes) + [Node(key, 0, 0, 0, Red)] && bh == old(bh) + [1]
      ensures shape == old(shape) && root == old(root) && Linkage() && Contents() == old(Contents())
    {
      ghost var a := nodes;
      n := |nodes|;
      nodes := nodes + [Node(key, 0, 0, 0, Red)];
      bh := bh + [1];
      LinkedBounds(a, shape, 0);
      LinkedFrame(a, nodes, shape, 0);
      OrderIds(shape);
      KeysOfSame(a, nodes, Order(shape));
    }

    /**
     * RotateLeft(p): q = p.right takes p's place, as LeftRotated describes;
     * the root follows q when p was the root, and no colour changes.
     */
    method RotateLeft(p: nat)
      requires Linkage() && p in Ids(shape) && p < |nodes| && nodes[p].right != 0
      modifies this
      ensures LeftRotated(old(nodes), nodes, p)
      ensures shape == RotateLeftShape(old(shape), p) && Ids(shape) == old(Ids(shape)) && bh == old(bh)
      ensures root == (if old(nodes[p].parent) == 0 then old(nodes[p].right) else old(root))
      ensures Linkage() && Contents() == old(Contents()) && nodes[root].parent == 0
      ensures forall j: nat :: Col(nodes, j) == old(Col(nodes, j))
    {
      ghost var t := shape;
      var b, r := RotateLeftLinks(nodes, root, shape, p);
      RotatedKeys(nodes, b, t, p, RotateLeftShape(t, p));
      RotatedColours(nodes, b, bh, p);
      nodes, root, shape := b, r, RotateLeftShape(t, p);
      SpliceSites(nodes, shape, root);
    }

    /** RotateRight(p): the mirror image of RotateLeft. */
    method RotateRight(p: nat)
      requires Linkage() && p in Ids(shape) && p < |nodes| && nodes[p].left != 0
      modifies this
      ensures RightRotated(old(nodes), nodes, p)
      ensures shape == RotateRightShape(old(shape), p) && Ids(shape) == old(Ids(shape)) && bh == old(bh)
      ensures root == (if old(nodes[p].parent) == 0 then old(nodes[p].left) else old(root))
      ensures Linkage() && Contents() == old(Contents()) && nodes[root].parent == 0
      ensures forall j: nat :: Col(nodes, j) == old(Col(nodes, j))
    {
      ghost var t := shape;
      var b, r := RotateRightLinks(nodes, root, shape, p);
      RotatedKeys(nodes, b, t, p, RotateRightShape(t, p));
      RotatedColours(nodes, b, bh, p);
      nodes, root, shape := b, r, RotateRightShape(t, p);
      SpliceSites(nodes, shape, root);
    }

    /** Insert: InsertNode, then InsertFixup when a node was added. */
    method Insert(key: int)
      requires Valid()
      modifies this
      ensures Valid() && RedBlackTree(nodes, shape)
      ensures key in Elems(old(Contents())) ==> nodes == old(nodes) && shape == old(shape) && root == old(root)
      ensures Elems(Contents()) == Elems(old(Contents())) + {key}
    {
      var node := InsertNode(key);
      if node == 0 {
        RedBlackStateProperties(nodes, bh, shape, root);
        return;
      }
      InsertFixup(node);
    }

    /**
     * InsertNode: descend from the root as FindNode does; a present key
     * leaves the tree as it is and gives nullptr, here 0.  Otherwise a new
     * Red leaf is hung under the last node visited, on the side
     * `key < parent.key` selects, or becomes the root of the empty tree.
     */
    method InsertNode(key: int) returns (z: nat)
      requires Valid()
      modifies this
      ensures key in Elems(old(Contents())) ==>
        z == 0 && nodes == old(nodes) && shape == old(shape) && root == old(root) && bh == old(bh)
      ensures key !in Elems(old(Contents())) ==>
        && z == |old(nodes)| && InsertState(nodes, bh, shape, root, z)
        && shape == InsertAt(old(nodes), old(shape), key, z)
        && nodes[z].key == key && nodes[z].left == 0 && nodes[z].right == 0
      ensures Ids(shape) == old(Ids(shape)) + (if z == 0 then {} else {z})
      ensures Elems(Contents()) == Elems(old(Contents())) + {key}
    {
      ghost var a, T, B, r := nodes, shape, bh, root;
      LinkedBounds(nodes, shape, 0);
      SubOfZero(shape);
      var n := |nodes|;
      var parent, found := FindParent(nodes, shape, root, key);
      if found {
        return 0;
      }
      z := NewNode(key);
      nodes := nodes[z := nodes[z].(parent := parent)];
      if parent == 0 {
        root := z;
      } else if key < nodes[parent].key {
        nodes := nodes[parent := nodes[parent].(left := z)];
      } else {
        nodes := nodes[parent := nodes[parent].(right := z)];
      }
      InsertLeaf(a, B, T, r, key, parent, nodes);
      shape := InsertAt(a, T, key, n);
    }

    /**
     * InsertFixup: while node's parent is Red, repair one case on the side
     * of the grandparent where the parent hangs (case 1 when the uncle is
     * Red, else cases 2 and 3); then make the root Black.  Afterwards the
     * tree is red-black again.
     */
    method InsertFixup(z: nat)
      requires InsertState(nodes, bh, shape, root, z)
      modifies this
      ensures Valid() && RedBlackTree(nodes, shape)
      ensures Contents() == old(Contents()) && Ids(shape) == old(Ids(shape))
    {
      var node := z;
      while nodes[nodes[node].parent].data == Red
        invariant InsertState(nodes, bh, shape, root, node)
        invariant Contents() == old(Contents()) && Ids(shape) == old(Ids(shape))
        decreases if Col(nodes, nodes[node].parent) == Black then 0 else Depth(shape, node) + 1
      {
        InsertSites(nodes, bh, shape, root, node);
        var parent := nodes[node].parent;
        var grandparent := nodes[parent].parent;
        if parent == nodes[grandparent].left {
          if nodes[nodes[grandparent].right].data == Red {
            node := InsertRecolour(node);
          } else {
            node := InsertRotateLeftSide(node);
          }
        } else {
          if nodes[nodes[grandparent].left].data == Red {
            node := InsertRecolour(node);
          } else {
            node := InsertRotateRightSide(node);
          }
        }
      }
      // the root turns Black
      ghost var a := nodes;
      nodes := Paint(nodes, root, Black);
      InsertDone(a, bh, shape, root, node, nodes);
    }

    /**
     * Case 1 of InsertFixup, on either side: the parent and the uncle turn
     * Black, the grandparent Red, and the work moves up to the grandparent.
     */
    method InsertRecolour(node: nat) returns (next: nat)
      requires InsertState(nodes, bh, shape, root, node) && Col(nodes, nodes[node].parent) == Red
      requires nodes[nodes[node].parent].parent < |nodes|
      requires var gp := nodes[nodes[node].parent].parent;
        var u := if nodes[node].parent == nodes[gp].left then nodes[gp].right else nodes[gp].left;
        u < |nodes| && Col(nodes, u) == Red
      modifies this
      ensures InsertState(nodes, bh, shape, root, next) && next == old(nodes[nodes[node].parent].parent)
      ensures shape == old(shape) && root == old(root) && Depth(shape, next) < Depth(shape, node)
      ensures Contents() == old(Contents())
    {
      ghost var a, B := nodes, bh;
      var parent := nodes[node].parent;
      var grandparent := nodes[parent].parent;
      var uncle := if parent == nodes[grandparent].left then nodes[grandparent].right else nodes[grandparent].left;
      nodes := Paint(nodes, parent, Black);
      nodes := Paint(nodes, uncle, Black);
      nodes := Paint(nodes, grandparent, Red);
      bh := bh[grandparent := bh[grandparent] + 1];
      InsertStep1(a, B, shape, root, node, parent, grandparent, uncle, nodes, bh);
      next := grandparent;
    }

    /**
     * Cases 2 and 3 of InsertFixup when the parent is a left child and the
     * uncle Black: a right child is first rotated into its parent's place
     * (case 2); then the parent turns Black, the grandparent Red, and the
     * grandparent is rotated right (case 3), after which the returned
     * node's parent is Black.
     */
    method InsertRotateLeftSide(node: nat) returns (next: nat)
      requires InsertState(nodes, bh, shape, root, node) && Col(nodes, nodes[node].parent) == Red
      requires nodes[nodes[node].parent].parent < |nodes|
      requires nodes[node].parent == nodes[nodes[nodes[node].parent].parent].left
      requires Col(nodes, nodes[nodes[nodes[node].parent].parent].right) == Black
      modifies this
      ensures InsertState(nodes, bh, shape, root, next) && Col(nodes, nodes[next].parent) == Black
      ensures Contents() == old(Contents()) && Ids(shape) == old(Ids(shape))
    {
      InsertSites(nodes, bh, shape, root, node);
      var z := node;
      if node == nodes[nodes[node].parent].right {
        // Case 2: node is a right child; rotate it into its parent's place
        ghost var a, t := nodes, shape;
        z := nodes[node].parent;
        RotateLeft(z);
        InsertStep2Left(a, bh, t, root, node, nodes, shape);
      }
      InsertOuterLeft(z);
      next := z;
    }

    /**
     * Case 3 of InsertFixup, the parent a left child of the grandparent
     * and z a left child of the parent: the parent turns Black, the
     * grandparent Red, and the grandparent is rotated right.
     */
    method InsertOuterLeft(z: nat)
      requires InsertState(nodes, bh, shape, root, z) && Col(nodes, nodes[z].parent) == Red
      requires nodes[nodes[z].parent].parent < |nodes|
      requires z == nodes[nodes[z].parent].left && nodes[z].parent == nodes[nodes[nodes[z].parent].parent].left
      requires Col(nodes, nodes[nodes[nodes[z].parent].parent].right) == Black
      modifies this
      ensures InsertState(nodes, bh, shape, root, z) && Col(nodes, nodes[z].parent) == Black
      ensures Contents() == old(Contents()) && Ids(shape) == old(Ids(shape))
    {
      InsertSites(nodes, bh, shape, root, z);
      var parent := nodes[z].parent;
      var grandparent := nodes[parent].parent;
      ghost var a, t, r := nodes, shape, root;
      nodes := Paint(nodes, parent, Black);
      nodes := Paint(nodes, grandparent, Red);
      ghost var a1 := nodes;
      PaintKeeps(a, bh, t, r, parent, Black);
      PaintKeeps(Paint(a, parent, Black), bh, t, r, grandparent, Red);
      RotateRight(grandparent);
      InsertStep3Left(a, bh, t, r, z, parent, grandparent, a1, nodes, shape, root);
    }

    /** The mirror image of InsertRotateLeftSide, where the parent is a right child. */
    method InsertRotateRightSide(node: nat) returns (next: nat)
      requires InsertState(nodes, bh, shape, root, node) && Col(nodes, nodes[node].parent) == Red
      requires nodes[nodes[node].parent].parent < |nodes|
      requires nodes[node].parent == nodes[nodes[nodes[node].parent].parent].right
      requires Col(nodes, nodes[nodes[nodes[node].parent].parent].left) == Black
      modifies this
      ensures InsertState(nodes, bh, shape, root, next) && Col(nodes, nodes[next].parent) == Black
      ensures Contents() == old(Contents()) && Ids(shape) == old(Ids(shape))
    {
      InsertSites(nodes, bh, shape, root, node);
      var z := node;
      if node == nodes[nodes[node].parent].left {
        // Case 2: node is a left child; rotate it into its parent's place
        ghost var a, t := nodes, shape;
        z := nodes[node].parent;
        RotateRight(z);
        InsertStep2Right(a, bh, t, root, node, nodes, shape);
      }
      InsertOuterRight(z);
      next := z;
    }

    /**
     * Case 3 of InsertFixup, the parent a right child of the grandparent
     * and z a right child of the parent: the parent turns Black, the
     * grandparent Red, and the grandparent is rotated left.
     */
    method InsertOuterRight(z: nat)
      requires InsertState(nodes, bh, shape, root, z) && Col(nodes, nodes[z].parent) == Red
      requires nodes[nodes[z].parent].parent < |nodes|
      requires z == nodes[nodes[z].parent].right && nodes[z].parent == nodes[nodes[nodes[z].parent].parent].right
      requires Col(nodes, nodes[nodes[nodes[z].parent].parent].left) == Black
      modifies this
      ensures InsertState(nodes, bh, shape, root, z) && Col(nodes, nodes[z].parent) == Black
      ensures Contents() == old(Contents()) && Ids(shape) == old(Ids(shape))
    {
      InsertSites(nodes, bh, shape, root, z);
      var parent := nodes[z].parent;
      var grandparent := nodes[parent].parent;
      ghost var a, t, r := nodes, shape, root;
      nodes := Paint(nodes, parent, Black);
      nodes := Paint(nodes, grandparent, Red);
      ghost var a1 := nodes;
      PaintKeeps(a, bh, t, r, parent, Black);
      PaintKeeps(Paint(a, parent, Black), bh, t, r, grandparent, Red);
      RotateLeft(grandparent);
      InsertStep3Right(a, bh, t, r, z, parent, grandparent, a1, nodes, shape, root);
    }

    /** Remove: RemoveNode. */
    method Remove(key: int)
      requires Valid()
      modifies this
      ensures Valid() && RedBlackTree(nodes, shape)
      ensures key !in Elems(old(Contents())) ==> nodes == old(nodes) && shape == old(shape) && root == old(root)
      ensures Elems(Contents()) == Elems(old(Contents())) - {key}
    {
      RemoveNode(key);
    }

    /**
     * RemoveNode: find the node holding `key` (nothing to do without one);
     * cut out y, the node itself when it lacks a child and its successor
     * otherwise, moving y's key into the node; when y was Black, RemoveFixup
     * repairs the black heights from y's child x upwards.
     */
    method RemoveNode(key: int)
      requires Valid()
      modifies this
      ensures Valid() && RedBlackTree(nodes, shape)
      ensures key !in Elems(old(Contents())) ==> nodes == old(nodes) && shape == old(shape) && root == old(root)
      ensures Elems(Contents()) == Elems(old(Contents())) - {key}
    {
      var node := FindNode(key);
      if node == 0 {
        RedBlackStateProperties(nodes, bh, shape, root);
        return;
      }
      ChildLinks(nodes, shape, 0, node);
      // the node to cut out, y, and its only child x
      var y := node;
      var x := 0;
      if nodes[node].left == 0 {
        x := nodes[node].right;
      } else if nodes[node].right == 0 {
        x := nodes[node].left;
      } else {
        y := FindMin(nodes[node].right);
        x := nodes[y].right;
      }
      Exclude(node, y, x);
      if nodes[y].data == Black {
        RemoveFixup(x);
      } else {
        RedBlackStateProperties(nodes, bh, shape, root);
      }
    }

    /**
     * Cutting out y and keeping its key in z (the first part of RemoveNode):
     * afterwards the keys are those before less z's, in order; when y was
     * Black the colouring is RemoveFixup's starting state at x, and when it
     * was Red the tree is red-black as it is.
     */
    method Exclude(z: nat, y: nat, x: nat)
      requires Valid() && z in Ids(shape) && z < |nodes|
      requires y == if nodes[z].left == 0 || nodes[z].right == 0 then z else Leftmost(Sub(shape, nodes[z].right))
      requires x == OnlyChild(nodes, y)
      modifies this
      ensures Linkage() && shape == SpliceShape(old(nodes), old(shape), y) && bh == old(bh)
      ensures Ids(shape) == old(Ids(shape)) - {y}
      ensures Elems(Contents()) == Elems(old(Contents())) - {old(nodes[z].key)}
      ensures y < |nodes| && nodes[y].data == old(nodes[y].data)
      ensures nodes[y].data == Black ==> RemoveState(nodes, bh, shape, root, x)
      ensures nodes[y].data == Red ==> Valid()
    {
      ghost var a, T := nodes, shape;
      ChildLinks(nodes, shape, 0, z);
      if !(nodes[z].left == 0 || nodes[z].right == 0) {
        ghost var m := SuccessorSite(nodes, shape, z);
      }
      Splice(y, x);
      ghost var c := nodes;
      if y != z {
        nodes := nodes[z := nodes[z].(key := nodes[y].key)];
      }
      KeyCopied(c, nodes, bh, shape, root, x);
      RemoveKeys(a, nodes, T, z, y);
    }

    /**
     * Cutting out y, which has at most one child x: x, nil included, takes
     * y's parent; y's parent names x where it named y, or x becomes the
     * root.  Keys and colours stay where they are.
     */
    method Splice(y: nat, x: nat)
      requires Valid() && y in Ids(shape) && y < |nodes| && (nodes[y].left == 0 || nodes[y].right == 0)
      requires x == OnlyChild(nodes, y)
      modifies this
      ensures WellLinked(nodes, shape) && root == Root(shape) && root < |nodes| && |nodes| == old(|nodes|)
      ensures shape == SpliceShape(old(nodes), old(shape), y) && Ids(shape) == old(Ids(shape)) - {y} && bh == old(bh)
      ensures forall i :: 0 <= i < |nodes| ==> nodes[i].key == old(nodes[i].key) && nodes[i].data == old(nodes[i].data)
      ensures nodes[y].data == Black ==> Removing(nodes, bh, shape, root, x)
      ensures nodes[y].data == Red ==> LocallyRedBlack(nodes, bh, Ids(shape), 0) && Col(nodes, root) == Black
    {
      ghost var a, T, r := nodes, shape, root;
      SpliceSites(a, T, y);
      CutLinks(y, x);
      SpliceColouring(a, bh, T, r, y, nodes);
      assert nodes[y].data == a[y].data == Col(a, y);
      shape := SpliceShape(a, T, y);
    }

    /** The pointer writes of Splice: x takes y's parent, and y's parent names x, or x becomes the root. */
    method CutLinks(y: nat, x: nat)
      requires 0 < y < |nodes| && nodes[y].parent < |nodes| && x == OnlyChild(nodes, y) && x < |nodes|
      requires y != nodes[y].parent && (x != 0 ==> x != y && x != nodes[y].parent)
      modifies this
      ensures CutOut(old(nodes), nodes, y) && shape == old(shape) && bh == old(bh)
      ensures root == if old(nodes[y].parent) == 0 then x else old(root)
    {
      ghost var a := nodes;
      nodes := nodes[x := nodes[x].(parent := nodes[y].parent)];
      if nodes[x].parent == 0 {
        root := x;
      } else if y == nodes[nodes[y].parent].left {
        nodes := nodes[nodes[y].parent := nodes[nodes[y].parent].(left := x)];
      } else {
        nodes := nodes[nodes[y].parent := nodes[nodes[y].parent].(right := x)];
      }
    }

    /**
     * RemoveFixup: while node is a Black node other than the root, repair
     * one case on node's side of its parent; then make node Black.
     * Afterwards the tree is red-black again, with the same keys.
     */
    method RemoveFixup(x: nat)
      requires RemoveState(nodes, bh, shape, root, x)
      modifies this
      ensures Valid() && RedBlackTree(nodes, shape)
      ensures Contents() == old(Contents()) && Ids(shape) == old(Ids(shape))
    {
      var node := x;
      while node != root && nodes[node].data == Black
        invariant RemoveState(nodes, bh, shape, root, node)
        invariant Contents() == old(Contents()) && Ids(shape) == old(Ids(shape))
        decreases RemoveMeasure(nodes, shape, root, node)
      {
        RemoveSites(nodes, bh, shape, root, node);
        if node == nodes[nodes[node].parent].left {
          node := RemoveFixupLeft(node);
        } else {
          node := RemoveFixupRight(node);
        }
      }
      // Case 5: node turns Black
      ghost var a := nodes;
      nodes := Paint(nodes, node, Black);
      RemoveDone(a, bh, shape, root, node, nodes);
    }

    /**
     * One round of RemoveFixup for a node that is its parent's left child:
     * case 1 turns a Red sibling Black; then either case 2 moves the work
     * up to the parent, or cases 3 and 4 finish at the root.
     */
    method RemoveFixupLeft(x: nat) returns (next: nat)
      requires RemoveState(nodes, bh, shape, root, x) && x != root && Col(nodes, x) == Black
      requires x < |nodes| && nodes[x].parent < |nodes| && x == nodes[nodes[x].parent].left
      modifies this
      ensures RemoveState(nodes, bh, shape, root, next)
      ensures Contents() == old(Contents()) && Ids(shape) == old(Ids(shape))
      ensures RemoveMeasure(nodes, shape, root, next) < old(RemoveMeasure(nodes, shape, root, x))
    {
      RemoveSites(nodes, bh, shape, root, x);
      var s := nodes[nodes[x].parent].right;
      // Case 1: the sibling is Red
      if nodes[s].data == Red {
        SiblingRedLeft(x);
      }
      next := BlackSiblingLeft(x);
    }

    /** The mirror image of RemoveFixupLeft, for a node that is its parent's right child. */
    method RemoveFixupRight(x: nat) returns (next: nat)
      requires RemoveState(nodes, bh, shape, root, x) && x != root && Col(nodes, x) == Black
      requires x < |nodes| && nodes[x].parent < |nodes| && x == nodes[nodes[x].parent].right && x != nodes[nodes[x].parent].left
      modifies this
      ensures RemoveState(nodes, bh, shape, root, next)
      ensures Contents() == old(Contents()) && Ids(shape) == old(Ids(shape))
      ensures RemoveMeasure(nodes, shape, root, next) < old(RemoveMeasure(nodes, shape, root, x))
    {
      RemoveSites(nodes, bh, shape, root, x);
      var w := nodes[nodes[x].parent].left;
      // Case 1: the sibling is Red
      if nodes[w].data == Red {
        SiblingRedRight(x);
      }
      next := BlackSiblingRight(x);
    }

    /**
     * The rest of RemoveFixupLeft, once x's sibling is Black: case 2 moves
     * the work up to the parent; otherwise case 3, when only the sibling's
     * left child is Red, and then case 4 finish at the root.
     */
    method BlackSiblingLeft(x: nat) returns (next: nat)
      requires RemoveState(nodes, bh, shape, root, x) && x != root && Col(nodes, x) == Black
      requires x < |nodes| && nodes[x].parent < |nodes| && x == nodes[nodes[x].parent].left
      requires Col(nodes, nodes[nodes[x].parent].right) == Black
      modifies this
      ensures RemoveState(nodes, bh, shape, root, next)
      ensures Contents() == old(Contents()) && Ids(shape) == old(Ids(shape))
      ensures RemoveMeasure(nodes, shape, root, next) < old(RemoveMeasure(nodes, shape, root, x))
      ensures old(Col(nodes, nodes[x].parent)) == Red ==> RemoveMeasure(nodes, shape, root, next) == 0
    {
      RemoveSites(nodes, bh, shape, root, x);
      var s := nodes[nodes[x].parent].right;
      if nodes[nodes[s].left].data == Black && nodes[nodes[s].right].data == Black {
        // Case 2: the sibling and its children are Black
        next := SiblingRecolour(x);
      } else {
        if nodes[nodes[s].right].data == Black {
          // Case 3: only the sibling's left child is Red
          NearNephewLeft(x);
        }
        // Case 4: the sibling's right child is Red
        FarNephewLeft(x);
        next := root;
      }
    }

    /** The mirror image of BlackSiblingLeft. */
    method BlackSiblingRight(x: nat) returns (next: nat)
      requires RemoveState(nodes, bh, shape, root, x) && x != root && Col(nodes, x) == Black
      requires x < |nodes| && nodes[x].parent < |nodes| && x == nodes[nodes[x].parent].right && x != nodes[nodes[x].parent].left
      requires Col(nodes, nodes[nodes[x].parent].left) == Black
      modifies this
      ensures RemoveState(nodes, bh, shape, root, next)
      ensures Contents() == old(Contents()) && Ids(shape) == old(Ids(shape))
      ensures RemoveMeasure(nodes, shape, root, next) < old(RemoveMeasure(nodes, shape, root, x))
      ensures old(Col(nodes, nodes[x].parent)) == Red ==> RemoveMeasure(nodes, shape, root, next) == 0
    {
      RemoveSites(nodes, bh, shape, root, x);
      var w := nodes[nodes[x].parent].left;
      if nodes[nodes[w].left].data == Black && nodes[nodes[w].right].data == Black {
        // Case 2: the sibling and its children are Black
        next := SiblingRecolour(x);
      } else {
        if nodes[nodes[w].left].data == Black {
          // Case 3: only the sibling's right child is Red
          NearNephewRight(x);
        }
        // Case 4: the sibling's left child is Red
        FarNephewRight(x);
        next := root;
      }
    }

    /** Case 1, x on the left: the Red sibling turns Black, the parent Red, and the parent is rotated left. */
    method SiblingRedLeft(x: nat)
      requires RemoveState(nodes, bh, shape, root, x) && x != root && Col(nodes, x) == Black
      requires x < |nodes| && nodes[x].parent < |nodes| && x == nodes[nodes[x].parent].left
      requires Col(nodes, nodes[nodes[x].parent].right) == Red
      modifies this
      ensures RemoveState(nodes, bh, shape, root, x) && x != root && nodes[x].parent == old(nodes[x].parent)
      ensures x == nodes[nodes[x].parent].left && Col(nodes, nodes[x].parent) == Red && Col(nodes, x) == Black
      ensures Col(nodes, nodes[nodes[x].parent].right) == Black
      ensures Contents() == old(Contents()) && Ids(shape) == old(Ids(shape))
    {
      RemoveSites(nodes, bh, shape, root, x);
      var parent := nodes[x].parent;
      var s := nodes[parent].right;
      ghost var a, t, r := nodes, shape, root;
      nodes := Paint(nodes, s, Black);
      nodes := Paint(nodes, parent, Red);
      ghost var a1 := nodes;
      PaintKeeps(a, bh, t, r, s, Black);
      PaintKeeps(Paint(a, s, Black), bh, t, r, parent, Red);
      RotateLeft(parent);
      RemoveStep1Left(a, bh, t, r, x, a1, nodes, shape, root);
    }

    /** The mirror image of SiblingRedLeft. */
    method SiblingRedRight(x: nat)
      requires RemoveState(nodes, bh, shape, root, x) && x != root && Col(nodes, x) == Black
      requires x < |nodes| && nodes[x].parent < |nodes| && x == nodes[nodes[x].parent].right && x != nodes[nodes[x].parent].left
      requires Col(nodes, nodes[nodes[x].parent].left) == Red
      modifies this
      ensures RemoveState(nodes, bh, shape, root, x) && x != root && nodes[x].parent == old(nodes[x].parent)
      ensures x == nodes[nodes[x].parent].right && x != nodes[nodes[x].parent].left && Col(nodes, nodes[x].parent) == Red
      ensures Col(nodes, x) == Black && Col(nodes, nodes[nodes[x].parent].left) == Black
      ensures Contents() == old(Contents()) && Ids(shape) == old(Ids(shape))
    {
      RemoveSites(nodes, bh, shape, root, x);
      var parent := nodes[x].parent;
      var w := nodes[parent].left;
      ghost var a, t, r := nodes, shape, root;
      nodes := Paint(nodes, w, Black);
      nodes := Paint(nodes, parent, Red);
      ghost var a1 := nodes;
      PaintKeeps(a, bh, t, r, w, Black);
      PaintKeeps(Paint(a, w, Black), bh, t, r, parent, Red);
      RotateRight(parent);
      RemoveStep1Right(a, bh, t, r, x, a1, nodes, shape, root);
    }

    /**
     * Case 2, either side: the Black sibling with Black children turns Red
     * and the work moves up to the parent, which keeps its colour.
     */
    method SiblingRecolour(x: nat) returns (next: nat)
      requires RemoveState(nodes, bh, shape, root, x) && x != root && Col(nodes, x) == Black
      requires x < |nodes| && nodes[x].parent < |nodes| && Sibling(nodes, x, nodes[x].parent) < |nodes|
      requires var s := Sibling(nodes, x, nodes[x].parent);
        Col(nodes, s) == Black && Col(nodes, nodes[s].left) == Black && Col(nodes, nodes[s].right) == Black
      modifies this
      ensures RemoveState(nodes, bh, shape, root, next) && next == old(nodes[x].parent)
      ensures Col(nodes, next) == old(Col(nodes, nodes[x].parent))
      ensures RemoveMeasure(nodes, shape, root, next) < old(RemoveMeasure(nodes, shape, root, x))
      ensures shape == old(shape) && root == old(root) && Contents() == old(Contents())
    {
      RemoveSites(nodes, bh, shape, root, x);
      ghost var a, B := nodes, bh;
      var parent := nodes[x].parent;
      var s := Sibling(nodes, x, parent);
      nodes := Paint(nodes, s, Red);
      bh := bh[parent := bh[parent] - 1];
      RemoveStep2(a, B, shape, root, x, parent, s, nodes, bh);
      next := parent;
    }

    /**
     * Case 3, x on the left: the sibling's Red left child turns Black, the
     * sibling Red, and the sibling is rotated right; x's new sibling is
     * Black with a Red right child.
     */
    method NearNephewLeft(x: nat)
      requires RemoveState(nodes, bh, shape, root, x) && x != root && Col(nodes, x) == Black
      requires x < |nodes| && nodes[x].parent < |nodes| && x == nodes[nodes[x].parent].left
      requires var s := nodes[nodes[x].parent].right;
        s < |nodes| && Col(nodes, s) == Black && Col(nodes, nodes[s].left) == Red && Col(nodes, nodes[s].right) == Black
      modifies this
      ensures RemoveState(nodes, bh, shape, root, x) && x != root && nodes[x].parent == old(nodes[x].parent)
      ensures x == nodes[nodes[x].parent].left && Col(nodes, x) == Black
      ensures var s := nodes[nodes[x].parent].right; s < |nodes| && Col(nodes, s) == Black && Col(nodes, nodes[s].right) == Red
      ensures Contents() == old(Contents()) && Ids(shape) == old(Ids(shape))
    {
      RemoveSites(nodes, bh, shape, root, x);
      var parent := nodes[x].parent;
      var s := nodes[parent].right;
      var sl := nodes[s].left;
      ghost var a, t, r := nodes, shape, root;
      nodes := Paint(nodes, sl, Black);
      nodes := Paint(nodes, s, Red);
      ghost var a1 := nodes;
      PaintKeeps(a, bh, t, r, sl, Black);
      PaintKeeps(Paint(a, sl, Black), bh, t, r, s, Red);
      RotateRight(s);
      RemoveStep3Left(a, bh, t, r, x, a1, nodes, shape);
    }

    /** The mirror image of NearNephewLeft. */
    method NearNephewRight(x: nat)
      requires RemoveState(nodes, bh, shape, root, x) && x != root && Col(nodes, x) == Black
      requires x < |nodes| && nodes[x].parent < |nodes| && x == nodes[nodes[x].parent].right && x != nodes[nodes[x].parent].left
      requires var w := nodes[nodes[x].parent].left;
        w < |nodes| && Col(nodes, w) == Black && Col(nodes, nodes[w].right) == Red && Col(nodes, nodes[w].left) == Black
      modifies this
      ensures RemoveState(nodes, bh, shape, root, x) && x != root && nodes[x].parent == old(nodes[x].parent)
      ensures x == nodes[nodes[x].parent].right && x != nodes[nodes[x].parent].left && Col(nodes, x) == Black
      ensures var w := nodes[nodes[x].parent].left; w < |nodes| && Col(nodes, w) == Black && Col(nodes, nodes[w].left) == Red
      ensures Contents() == old(Contents()) && Ids(shape) == old(Ids(shape))
    {
      RemoveSites(nodes, bh, shape, root, x);
      var parent := nodes[x].parent;
      var w := nodes[parent].left;
      var wr := nodes[w].right;
      ghost var a, t, r := nodes, shape, root;
      nodes := Paint(nodes, wr, Black);
      nodes := Paint(nodes, w, Red);
      ghost var a1 := nodes;
      PaintKeeps(a, bh, t, r, wr, Black);
      PaintKeeps(Paint(a, wr, Black), bh, t, r, w, Red);
      RotateLeft(w);
      RemoveStep3Right(a, bh, t, r, x, a1, nodes, shape);
    }

    /**
     * Case 4, x on the left: the sibling takes the parent's colour, the
     * parent and the sibling's Red right child turn Black, and the parent
     * is rotated left; the tree is red-black again.
     */
    method FarNephewLeft(x: nat)
      requires RemoveState(nodes, bh, shape, root, x) && x != root && Col(nodes, x) == Black
      requires x < |nodes| && nodes[x].parent < |nodes| && x == nodes[nodes[x].parent].left
      requires var s := nodes[nodes[x].parent].right; s < |nodes| && Col(nodes, s) == Black && Col(nodes, nodes[s].right) == Red
      modifies this
      ensures Valid() && RemoveState(nodes, bh, shape, root, root)
      ensures Contents() == old(Contents()) && Ids(shape) == old(Ids(shape))
    {
      RemoveSites(nodes, bh, shape, root, x);
      var parent := nodes[x].parent;
      var s := nodes[parent].right;
      var sr := nodes[s].right;
      ghost var a, t, r, B := nodes, shape, root, bh;
      var c := nodes[parent].data;
      // s takes the parent's colour; the parent and sr turn Black
      nodes := Paint(nodes, s, c);
      nodes := Paint(nodes, parent, Black);
      nodes := Paint(nodes, sr, Black);
      ghost var a1 := nodes;
      PaintKeeps3(a, bh, t, r, s, c, parent, Black, sr, Black);
      RotateLeft(parent);
      // the parent's black height drops by one, and s takes the parent's old one
      bh := B[parent := B[parent] - 1][s := B[parent]];
      RemoveStep4Left(a, B, t, r, x, parent, s, c, a1, nodes, shape, root, bh);
    }

    /** The mirror image of FarNephewLeft. */
    method FarNephewRight(x: nat)
      requires RemoveState(nodes, bh, shape, root, x) && x != root && Col(nodes, x) == Black
      requires x < |nodes| && nodes[x].parent < |nodes| && x == nodes[nodes[x].parent].right && x != nodes[nodes[x].parent].left
      requires var w := nodes[nodes[x].parent].left; w < |nodes| && Col(nodes, w) == Black && Col(nodes, nodes[w].left) == Red
      modifies this
      ensures Valid() && RemoveState(nodes, bh, shape, root, root)
      ensures Contents() == old(Contents()) && Ids(shape) == old(Ids(shape))
    {
      RemoveSites(nodes, bh, shape, root, x);
      var parent := nodes[x].parent;
      var w := nodes[parent].left;
      var wl := nodes[w].left;
      ghost var a, t, r, B := nodes, shape, root, bh;
      var c := nodes[parent].data;
      // w takes the parent's colour; the parent and wl turn Black
      nodes := Paint(nodes, w, c);
      nodes := Paint(nodes, parent, Black);
      nodes := Paint(nodes, wl, Black);
      ghost var a1 := nodes;
      PaintKeeps3(a, bh, t, r, w, c, parent, Black, wl, Black);
      RotateRight(parent);
      // the parent's black height drops by one, and w takes the parent's old one
      bh := B[parent := B[parent] - 1][w := B[parent]];
      RemoveStep4Right(a, B, t, r, x, parent, w, c, a1, nodes, shape, root, bh);
    }

    /** FindNode: the node holding `key`, or nil when no node does. */
    method FindNode(key: int) returns (node: nat)
      requires Linkage()
      ensures node == 0 <==> key !in Elems(Contents())
      ensures node != 0 ==> node in Ids(shape) && node < |nodes| && nodes[node].key == key
    {
      LinkedBounds(nodes, shape, 0);
      SubOfZero(shape);
      node := root;
      while node != 0
        invariant node == 0 || node in Ids(shape)
        invariant Ascending(KeySeq(nodes, Sub(shape, node)))
        invariant key in Elems(Contents()) <==> key in Elems(KeySeq(nodes, Sub(shape, node)))
        decreases Sub(shape, node)
      {
        DescendLinks(nodes, shape, node);
        Descend(nodes, Sub(shape, node), key);
        if nodes[node].key == key {
          return;
        }
        if key < nodes[node].key {
          node := nodes[node].left;
        } else {
          node := nodes[node].right;
        }
      }
    }

    /** FindMin(node): the leftmost node below `node`, which holds the smallest key there. */
    method FindMin(start: nat) returns (m: nat)
      requires Linkage() && start in Ids(shape)
      ensures m == Leftmost(Sub(shape, start)) && m in Ids(shape) && m < |nodes| && nodes[m].left == 0
      ensures |KeySeq(nodes, Sub(shape, start))| > 0 && nodes[m].key == KeySeq(nodes, Sub(shape, start))[0]
    {
      LinkedBounds(nodes, shape, 0);
      m := start;
      while nodes[m].left != 0
        invariant m in Ids(shape) && Leftmost(Sub(shape, m)) == Leftmost(Sub(shape, start))
        decreases Sub(shape, m)
      {
        ChildLinks(nodes, shape, 0, m);
        m := nodes[m].left;
      }
      ChildLinks(nodes, shape, 0, m);
      SubFacts(shape, start);
      LeftmostFacts(Sub(shape, start));
    }

    method Find(key: int) returns (found: bool)
      requires Linkage()
      ensures found <==> key in Elems(Contents())
    {
      var node := FindNode(key);
      found := node != 0;
    }

    /** Clear: root becomes nil; the sentinel stays (the nodes' storage is not modelled). */
    method Clear()
      requires Valid()
      modifies this
      ensures Valid() && Contents() == [] && root == 0 && nodes == old(nodes[..1])
    {
      nodes := nodes[..1];
      bh := bh[..1];
      root := 0;
      shape := Nil;
    }

    /** GetVector: the keys in in-order, which are strictly ascending. */
    method GetVector() returns (v: seq<int>)
      requires Linkage()
      ensures v == Contents() && Ascending(v)
    {
      v := CollectKeys(root, []);
    }

    /** GetVector(node, vec): appends the keys below `node` to `vec` in in-order, stopping at nil. */
    method CollectKeys(node: nat, vec: seq<int>) returns (out: seq<int>)
      requires Linkage() && (node == 0 || node in Ids(shape))
      ensures out == vec + KeySeq(nodes, Sub(shape, node))
      decreases Sub(shape, node)
    {
      LinkedBounds(nodes, shape, 0);
      SubOfZero(shape);
      if node == 0 {
        return vec;
      }
      DescendLinks(nodes, shape, node);
      KeySeqBr(nodes, node, Sub(shape, nodes[node].left), Sub(shape, nodes[node].right));
      out := CollectKeys(nodes[node].left, vec);
      out := out + [nodes[node].key];
      out := CollectKeys(nodes[node].right, out);
    }

    /** Height(): the recursion stops at nullptr, below nil, so nil counts as a level and the empty tree gives 1. */
    method Height() returns (h: nat)
      requires Linkage()
      ensures h == ShapeHeight(shape) + 1
      ensures h == 1 <==> Contents() == []
    {
      h := HeightAt(root);
      LinkedBounds(nodes, shape, 0);
      SubOfZero(shape);
      if shape.Br? {
        KeySeqBr(nodes, shape.id, shape.left, shape.right);
      }
    }

    /**
     * Height(node): one more than the larger child height.  nil's children
     * are nullptr, of height 0, so nil itself has height 1.
     */
    method HeightAt(node: nat) returns (h: nat)
      requires Linkage() && (node == 0 || node in Ids(shape))
      ensures h == ShapeHeight(Sub(shape, node)) + 1
      decreases Sub(shape, node)
    {
      LinkedBounds(nodes, shape, 0);
      SubOfZero(shape);
      if node == 0 {
        return 1;
      }
      DescendLinks(nodes, shape, node);
      var l := HeightAt(nodes[node].left);
      var r := HeightAt(nodes[node].right);
      h := (if l >= r then l else r) + 1;
    }
  }
}
