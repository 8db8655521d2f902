/**
 The red-black tree of tree.h as linked nodes.  `shape` is the ghost record of how the
 nodes are linked; every method body only uses the RB_ENTRY fields, as the macros do.
 */
module RbTree {
  import opened RbShape
  import opened RbBalance
  import opened RbOrder
  import opened RbHeight
  import opened Powers

  /** The fields of the nodes of `t` link them in that shape, below parent `p`. */
  ghost predicate Linked(t: Tree, p: Node?)
    reads Nodes(t)
  {
    match t
    case Nil => true
    case Branch(l, n, red, r) =>
      && n.left == Root(l) && n.right == Root(r) && n.parent == p && n.red == red
      && Linked(l, n) && Linked(r, n)
  }

  /** The nodes of `p` are linked around a hole in which `hole` hangs, and `top` is the topmost node. */
  ghost predicate LinkedPath(p: Path, hole: Node?, top: Node?)
    reads PathNodes(p)
  {
    match p
    case Top => top == hole
    case Step(up, isLeft, n, red, s) =>
      && n.left == (if isLeft then hole else Root(s))
      && n.right == (if isLeft then Root(s) else hole)
      && n.parent == Owner(up) && n.red == red
      && Linked(s, n) && LinkedPath(up, n, top)
  }

  ghost function AsSet(n: Node?): set<Node> {
    if n == null then {} else {n}
  }

  ghost predicate Has(n: Node, left: Node?, right: Node?, parent: Node?, red: bool)
    reads n
  {
    n.left == left && n.right == right && n.parent == parent && n.red == red
  }

  /** The nodes a rotation writes to. */
  ghost function Touched(x: Node, y: Node, inner: Node?, owner: Node?): set<Node> {
    {x, y} + AsSet(inner) + AsSet(owner)
  }

  /** A rotation writes to no node of the subtrees it moves, nor further up. */
  lemma RotationTouches(p: Path, a: Tree, x: Node, xred: bool, b: Tree, y: Node, yred: bool, c: Tree)
    requires Apart(p, LeanRight(a, x, xred, b, y, yred, c))
    ensures var touched := Touched(x, y, Root(b), Owner(p));
            && touched !! Nodes(a) && touched !! Nodes(c)
            && (b.Branch? ==> b.node in Nodes(b) && touched !! Nodes(b.left) && touched !! Nodes(b.right))
            && (p.Step? ==> p.node in PathNodes(p) && touched !! Nodes(p.sibling) && touched !! PathNodes(p.up))
            && Touched(x, y, Root(b), Owner(p)) == Touched(y, x, Root(b), Owner(p))
            && touched <= PathNodes(p) + Nodes(LeanRight(a, x, xred, b, y, yred, c))
            && (p.Step? ==> Root(p.sibling) != x && Root(p.sibling) != y)
  {
    RotationDistinct(a, x, xred, b, y, yred, c);
  }

  /** Splicing out a node writes to no other node than its child and its parent. */
  lemma UnlinkTouches(p: Path, t: Tree, c: Tree)
    requires Apart(p, t) && t.Branch?
    requires (t.left.Nil? && c == t.right) || (t.right.Nil? && c == t.left)
    ensures var touched := AsSet(Root(c)) + AsSet(Owner(p));
            && (c.Branch? ==>
                  && touched !! Nodes(c.left) && touched !! Nodes(c.right)
                  && c.node != t.node && c.node != Owner(p))
            && (p.Step? ==> touched !! Nodes(p.sibling) && touched !! PathNodes(p.up) && p.node != t.node)
    ensures Apart(p, c)
  {
    assert c.Branch? ==> c.node in Nodes(c) && Distinct(c);
    assert Nodes(c) <= Nodes(t);
    assert p.Step? ==> p.node in PathNodes(p);
  }

  /** Putting `elm` in the place of `out` writes to `elm` and the neighbours of `out` only. */
  lemma LeafTouches(p: Path, elm: Node)
    requires Apart(p, Nil) && elm !in PathNodes(p)
    ensures p.Step? ==>
              && elm != p.node && elm !in Nodes(p.sibling) && elm !in PathNodes(p.up)
              && p.node in PathNodes(p) && p.node !in Nodes(p.sibling) && p.node !in PathNodes(p.up)
    ensures Apart(p, Branch(Nil, elm, true, Nil))
  {
  }

  /** What hangs around a node and its children. */
  ghost function Around(p: Path, l: Tree, r: Tree): set<Node>
    requires l.Branch?
  {
    Nodes(l.left) + Nodes(l.right) + (if r.Branch? then Nodes(r.left) + Nodes(r.right) else {})
    + if p.Step? then Nodes(p.sibling) + PathNodes(p.up) else {}
  }

  ghost predicate LinkedAround(p: Path, l: Tree, r: Tree, top: Node?)
    requires l.Branch?
    reads Around(p, l, r)
  {
    && Linked(l.left, l.node) && Linked(l.right, l.node)
    && (r.Branch? ==> Linked(r.left, r.node) && Linked(r.right, r.node))
    && (p.Step? ==> Linked(p.sibling, p.node) && LinkedPath(p.up, p.node, top))
  }

  lemma ReplaceTouches(p: Path, l: Tree, out: Node, red: bool, r: Tree, elm: Node)
    requires Apart(p, Branch(l, out, red, r)) && l.Branch?
    requires elm !in PathNodes(p) && elm !in Nodes(Branch(l, out, red, r))
    ensures var around := Around(p, l, r);
            && elm !in around && l.node !in around && Root(r) !in around && Owner(p) !in around
    ensures l.node in Nodes(l) && (r.Branch? ==> r.node in Nodes(r)) && (p.Step? ==> p.node in PathNodes(p))
    ensures out != elm && out != l.node && out != Root(r) && out != Owner(p)
    ensures elm != l.node && elm != Root(r) && elm != Owner(p) && l.node != Root(r) && l.node != Owner(p)
    ensures Owner(p) != null ==> Root(r) != Owner(p)
    ensures Apart(p, Branch(l, elm, red, r))
  {
    assert Distinct(l) && Distinct(r) && Nodes(l) !! Nodes(r);
  }

  class RbTree {
    var root: Node?
    ghost var shape: Tree

    /** The nodes of `Plug(p, t)` are linked in that shape. */
    ghost predicate At(p: Path, t: Tree)
      reads this, PathNodes(p), Nodes(t)
    {
      Apart(p, t) && LinkedPath(p, Root(t), root) && Linked(t, Owner(p))
    }

    /** A red-black tree in search order, correctly linked. */
    ghost predicate Valid()
      reads this, Nodes(shape)
    {
      At(Top, shape) && RedBlack(shape) && Sorted(InOrder(shape))
    }

    // RB_INIT (tree.h:299-301)
    constructor ()
      ensures Valid() && Nodes(shape) == {}
    {
      root := null;
      shape := Nil;
      new;
      assert Good(Nil, 0);
    }

    /** The claim at the top of the header for every tree that RB_INSERT and RB_REMOVE can make, in
        the number of nodes: 2^height <= (n + 1)^2. */
    lemma HeightOfValid()
      requires Valid()
      ensures Pow2(Height(shape)) <= (|Nodes(shape)| + 1) * (|Nodes(shape)| + 1)
    {
      NodeCount(shape);
      HeightBound(shape);
    }

    /** The focus moves between a hole and the node above it; nothing changes. */
    lemma Refocus(up: Path, isLeft: bool, n: Node, red: bool, t: Tree, s: Tree)
      ensures At(Step(up, isLeft, n, red, s), t) <==> At(up, Join(isLeft, n, red, t, s))
      ensures PathNodes(Step(up, isLeft, n, red, s)) + Nodes(t) == PathNodes(up) + Nodes(Join(isLeft, n, red, t, s))
    {
    }

    /** Being linked in a shape does not depend on where in the shape the focus is. */
    lemma {:induction false} PlugAt(p: Path, t: Tree)
      ensures At(Top, Plug(p, t)) <==> At(p, t)
      ensures Nodes(Plug(p, t)) == PathNodes(p) + Nodes(t)
      decreases p
    {
      if p.Step? {
        Refocus(p.up, p.isLeft, p.node, p.red, t, p.sibling);
        PlugAt(p.up, Join(p.isLeft, p.node, p.red, t, p.sibling));
      }
    }

    /** The focus moves to a child. */
    lemma GoDown(p: Path, t: Tree, isLeft: bool) returns (p': Path, t': Tree)
      requires At(p, t) && t.Branch?
      ensures p' == Step(p, isLeft, t.node, t.red, if isLeft then t.right else t.left)
      ensures t' == (if isLeft then t.left else t.right)
      ensures At(p', t') && Plug(p', t') == Plug(p, t) && Root(t') == (if isLeft then t.node.left else t.node.right)
      ensures PathNodes(p') + Nodes(t') == PathNodes(p) + Nodes(t)
    {
      t' := if isLeft then t.left else t.right;
      p' := Step(p, isLeft, t.node, t.red, if isLeft then t.right else t.left);
      Refocus(p, isLeft, t.node, t.red, t', p'.sibling);
    }

    /** What the child pointers of the node above a hole hold, and the colour found there. */
    lemma Children(p: Path, t: Tree)
      requires p.Step? && Apart(p, t) && LinkedPath(p, Root(t), root)
      ensures p.isLeft ==> p.node.left == Root(t) && p.node.right == Root(p.sibling)
      ensures !p.isLeft ==> p.node.left == Root(p.sibling) && p.node.right == Root(t)
      ensures p.node.red == p.red && p.node.parent == Owner(p.up)
      ensures p.sibling.Branch? ==> p.sibling.node.red == p.sibling.red
      ensures t.Branch? ==> Root(p.sibling) != Root(t)
      ensures LinkedPath(p.up, p.node, root)
    {
    }

    // RB_COLOR(n, field) = red
    method Recolour(n: Node, red: bool, ghost p: Path, ghost t: Tree)
      requires At(p, t) && t.Branch? && t.node == n
      modifies n`red
      ensures At(p, Paint(t, red))
    {
      assert allocated(Nodes(t.left)) && allocated(Nodes(t.right)) && allocated(PathNodes(p));
      n.red := red;
      assert Linked(t.left, n) && Linked(t.right, n);
      assert LinkedPath(p, n, root);
    }

    /** Whatever pointed down from `owner` to `was` now points to `now`. */
    twostate predicate Relinked(owner: Node?, was: Node, now: Node?)
      reads this, owner
    {
      if owner == null then root == now
      else
        && root == old(root)
        && owner.parent == old(owner.parent) && owner.red == old(owner.red)
        && owner.left == (if old(owner.left) == was then now else old(owner.left))
        && owner.right == (if old(owner.left) == was then old(owner.right) else now)
    }

    // RB_ROTATE_LEFT (tree.h:335-353), field by field
    method RotateLeftLinks(elm: Node, ghost top: Node, ghost inner: Node?, ghost owner: Node?) returns (tmp: Node)
      requires elm.right == top && top.left == inner && elm.parent == owner
      requires elm != top && inner != elm && inner != top && owner != elm && owner != top
          && (owner != null ==> owner != inner)
      modifies this`root, Touched(elm, top, inner, owner)
      ensures tmp == top
      ensures Has(elm, old(elm.left), inner, top, old(elm.red))
      ensures Has(top, elm, old(top.right), owner, old(top.red))
      ensures inner != null ==> Has(inner, old(inner.left), old(inner.right), elm, old(inner.red))
      ensures Relinked(owner, elm, top)
    {
      tmp := elm.right;
      elm.right := tmp.left;
      if tmp.left != null {
        tmp.left.parent := elm;
      }
      tmp.parent := elm.parent;
      if tmp.parent != null {
        if elm == elm.parent.left {
          elm.parent.left := tmp;
        } else {
          elm.parent.right := tmp;
        }
      } else {
        root := tmp;
      }
      tmp.left := elm;
      elm.parent := tmp;
    }

    // RB_ROTATE_RIGHT (tree.h:355-373), field by field
    method RotateRightLinks(elm: Node, ghost top: Node, ghost inner: Node?, ghost owner: Node?) returns (tmp: Node)
      requires elm.left == top && top.right == inner && elm.parent == owner
      requires elm != top && inner != elm && inner != top && owner != elm && owner != top
          && (owner != null ==> owner != inner)
      modifies this`root, Touched(elm, top, inner, owner)
      ensures tmp == top
      ensures Has(elm, inner, old(elm.right), top, old(elm.red))
      ensures Has(top, old(top.left), elm, owner, old(top.red))
      ensures inner != null ==> Has(inner, old(inner.left), old(inner.right), elm, old(inner.red))
      ensures Relinked(owner, elm, top)
    {
      tmp := elm.left;
      elm.left := tmp.right;
      if tmp.right != null {
        tmp.right.parent := elm;
      }
      tmp.parent := elm.parent;
      if tmp.parent != null {
        if elm == elm.parent.left {
          elm.parent.left := tmp;
        } else {
          elm.parent.right := tmp;
        }
      } else {
        root := tmp;
      }
      tmp.right := elm;
      elm.parent := tmp;
    }

    // RB_ROTATE_LEFT (tree.h:335-353), as a step between shapes
    method RotateLeft(elm: Node, ghost p: Path, ghost a: Tree, ghost x: Node, ghost xred: bool, ghost b: Tree,
                      ghost y: Node, ghost yred: bool, ghost c: Tree)
      returns (tmp: Node)
      requires elm == x
      requires At(p, LeanRight(a, x, xred, b, y, yred, c))
      modifies this`root, PathNodes(p), Nodes(LeanRight(a, x, xred, b, y, yred, c))
      ensures tmp == y
      ensures At(p, LeanLeft(a, x, xred, b, y, yred, c))
    {
      RotationKeeps(a, x, xred, b, y, yred, c);
      RotationDistinct(a, x, xred, b, y, yred, c);
      RotationTouches(p, a, x, xred, b, y, yred, c);
      assert Linked(Branch(b, y, yred, c), x) && Linked(b, y);
      assert b.Branch? ==> Linked(b.left, b.node) && Linked(b.right, b.node);
      assert p.Step? ==> Linked(p.sibling, p.node) && LinkedPath(p.up, p.node, root);
      assert allocated(Nodes(a)) && allocated(Nodes(c));
      assert b.Branch? ==> allocated(Nodes(b.left)) && allocated(Nodes(b.right));
      assert p.Step? ==> allocated(Nodes(p.sibling)) && allocated(PathNodes(p.up));
      tmp := RotateLeftLinks(elm, y, Root(b), Owner(p));
      assert b.Branch? ==> Linked(b.left, b.node) && Linked(b.right, b.node);
      assert p.Step? ==> Linked(p.sibling, p.node) && LinkedPath(p.up, p.node, root);
      assert Linked(b, x);
      assert Linked(Branch(a, x, xred, b), y);
    }

    // RB_ROTATE_RIGHT (tree.h:355-373), as a step between shapes
    method RotateRight(elm: Node, ghost p: Path, ghost a: Tree, ghost x: Node, ghost xred: bool, ghost b: Tree,
                      ghost y: Node, ghost yred: bool, ghost c: Tree)
      returns (tmp: Node)
      requires elm == y
      requires At(p, LeanLeft(a, x, xred, b, y, yred, c))
      modifies this`root, PathNodes(p), Nodes(LeanLeft(a, x, xred, b, y, yred, c))
      ensures tmp == x
      ensures At(p, LeanRight(a, x, xred, b, y, yred, c))
    {
      RotationKeeps(a, x, xred, b, y, yred, c);
      RotationDistinct(a, x, xred, b, y, yred, c);
      RotationTouches(p, a, x, xred, b, y, yred, c);
      assert Linked(Branch(a, x, xred, b), y) && Linked(b, x);
      assert b.Branch? ==> Linked(b.left, b.node) && Linked(b.right, b.node);
      assert p.Step? ==> Linked(p.sibling, p.node) && LinkedPath(p.up, p.node, root);
      assert allocated(Nodes(a)) && allocated(Nodes(c));
      assert b.Branch? ==> allocated(Nodes(b.left)) && allocated(Nodes(b.right));
      assert p.Step? ==> allocated(Nodes(p.sibling)) && allocated(PathNodes(p.up));
      tmp := RotateRightLinks(elm, x, Root(b), Owner(p));
      assert b.Branch? ==> Linked(b.left, b.node) && Linked(b.right, b.node);
      assert p.Step? ==> Linked(p.sibling, p.node) && LinkedPath(p.up, p.node, root);
      assert Linked(b, y);
      assert Linked(Branch(b, y, yred, c), x);
    }

    // The red-uncle turn of RB_INSERT_COLOR: RB_COLOR(tmp) = BLACK, RB_SET_BLACKRED(parent, gparent)
    method RedUncle(parent: Node, gparent: Node, tmp: Node, ghost p: Path, ghost t: Tree)
      requires At(p, t) && p.Step? && p.node == parent && p.up.Step? && p.up.node == gparent
      requires Root(p.up.sibling) == tmp
      modifies parent`red, gparent`red, tmp`red
      ensures At(p.up.up, RedUncleResult(p, t))
      ensures PathNodes(p.up.up) + Nodes(RedUncleResult(p, t)) == PathNodes(p) + Nodes(t)
    {
      ghost var Step(g, isLeft, _, red, s) := p;
      ghost var Step(up, gIsLeft, _, gred, uncle) := g;
      ghost var u := Join(isLeft, parent, red, t, s);
      Refocus(g, isLeft, parent, red, t, s);
      Refocus(up, gIsLeft, gparent, gred, u, uncle);
      Refocus(up, !gIsLeft, gparent, gred, uncle, u);
      Recolour(tmp, false, Step(up, !gIsLeft, gparent, gred, u), uncle);
      ghost var uncle' := Paint(uncle, false);
      Refocus(up, !gIsLeft, gparent, gred, uncle', u);
      Refocus(up, gIsLeft, gparent, gred, u, uncle');
      Recolour(parent, false, Step(up, gIsLeft, gparent, gred, uncle'), u);
      Refocus(up, gIsLeft, gparent, gred, Paint(u, false), uncle');
      Recolour(gparent, true, up, Join(gIsLeft, gparent, gred, Paint(u, false), uncle'));
    }

    // RB_SET_BLACKRED(parent, gparent) before the last rotation of RB_INSERT_COLOR
    method BlackenParent(parent: Node, gparent: Node, ghost p: Path, ghost t: Tree)
      requires At(p, t) && p.Step? && p.node == parent && p.up.Step? && p.up.node == gparent
      modifies parent`red, gparent`red
      ensures At(p.up.up, Join(p.up.isLeft, gparent, true, Join(p.isLeft, parent, false, t, p.sibling), p.up.sibling))
    {
      ghost var Step(g, isLeft, _, red, s) := p;
      ghost var Step(up, gIsLeft, _, gred, uncle) := g;
      ghost var u := Join(isLeft, parent, red, t, s);
      Refocus(g, isLeft, parent, red, t, s);
      Recolour(parent, false, g, u);
      Refocus(up, gIsLeft, gparent, gred, Paint(u, false), uncle);
      Recolour(gparent, true, up, Join(gIsLeft, gparent, gred, Paint(u, false), uncle));
    }

    // RB_INSERT_COLOR, an inner grandchild is first rotated to the outside (tree.h:406-410)
    method StraightenLeft(node: Node, above: Node, ghost g: Path, ghost isLeft: bool, ghost s: Tree,
            ghost subtree: Tree, ghost h: nat)
      returns (elm: Node, parent: Node, ghost t: Tree, ghost s': Tree)
      requires At(g, Join(isLeft, above, true, subtree, s)) && Root(subtree) == node
      requires Good(subtree, h) && IsRed(subtree) && Good(s, h) && !IsRed(s)
      modifies this`root, PathNodes(g), Nodes(Join(isLeft, above, true, subtree, s))
      ensures At(g, Join(true, parent, true, t, s')) && Root(t) == elm
      ensures Good(t, h) && IsRed(t) && Good(s', h) && !IsRed(s')
      ensures Nodes(Join(true, parent, true, t, s')) == Nodes(Join(isLeft, above, true, subtree, s))
      ensures InOrder(Join(true, parent, true, t, s')) == InOrder(Join(isLeft, above, true, subtree, s))
    {
      elm, parent, t, s' := node, above, subtree, s;
      Refocus(g, isLeft, above, true, subtree, s);
      Children(Step(g, isLeft, above, true, s), subtree);
      if parent.right == elm {
        var tmp := RotateLeft(parent, g, s, above, true, subtree.left, node, true, subtree.right);
        RotationKeeps(s, above, true, subtree.left, node, true, subtree.right);
        tmp := parent;
        parent := elm;
        elm := tmp;
        t, s' := Branch(s, above, true, subtree.left), subtree.right;
      }
    }

    // RB_INSERT_COLOR, an outer grandchild below a left parent with a black uncle (tree.h:411-412)
    method LiftLeft(elm: Node, parent: Node, gparent: Node, ghost up: Path, ghost uncle: Tree, ghost s: Tree,
            ghost t: Tree, ghost h: nat)
      requires At(Step(up, true, gparent, false, uncle), Join(true, parent, true, t, s)) && Root(t) == elm
      modifies this`root, PathNodes(Step(up, true, gparent, false, uncle)), Nodes(Join(true, parent, true, t, s))
      ensures At(Step(up, true, parent, false, Join(true, gparent, true, s, uncle)), t)
    {
      ghost var g := Step(up, true, gparent, false, uncle);
      Refocus(g, true, parent, true, t, s);
      BlackenParent(parent, gparent, Step(g, true, parent, true, s), t);
      var tmp := RotateRight(gparent, up, t, parent, false, s, gparent, true, uncle);
      Refocus(up, true, parent, false, t, Join(true, gparent, true, s, uncle));
    }

    // RB_INSERT_COLOR, an inner grandchild is first rotated to the outside (tree.h:422-426)
    method StraightenRight(node: Node, above: Node, ghost g: Path, ghost isLeft: bool, ghost s: Tree,
            ghost subtree: Tree, ghost h: nat)
      returns (elm: Node, parent: Node, ghost t: Tree, ghost s': Tree)
      requires At(g, Join(isLeft, above, true, subtree, s)) && Root(subtree) == node
      requires Good(subtree, h) && IsRed(subtree) && Good(s, h) && !IsRed(s)
      modifies this`root, PathNodes(g), Nodes(Join(isLeft, above, true, subtree, s))
      ensures At(g, Join(false, parent, true, t, s')) && Root(t) == elm
      ensures Good(t, h) && IsRed(t) && Good(s', h) && !IsRed(s')
      ensures Nodes(Join(false, parent, true, t, s')) == Nodes(Join(isLeft, above, true, subtree, s))
      ensures InOrder(Join(false, parent, true, t, s')) == InOrder(Join(isLeft, above, true, subtree, s))
    {
      elm, parent, t, s' := node, above, subtree, s;
      Refocus(g, isLeft, above, true, subtree, s);
      Children(Step(g, isLeft, above, true, s), subtree);
      if parent.left == elm {
        var tmp := RotateRight(parent, g, subtree.left, node, true, subtree.right, above, true, s);
        RotationKeeps(subtree.left, node, true, subtree.right, above, true, s);
        tmp := parent;
        parent := elm;
        elm := tmp;
        t, s' := Branch(subtree.right, above, true, s), subtree.left;
      }
    }

    // RB_INSERT_COLOR, an outer grandchild below a right parent with a black uncle (tree.h:427-428)
    method LiftRight(elm: Node, parent: Node, gparent: Node, ghost up: Path, ghost uncle: Tree, ghost s: Tree,
            ghost t: Tree, ghost h: nat)
      requires At(Step(up, false, gparent, false, uncle), Join(false, parent, true, t, s)) && Root(t) == elm
      modifies this`root, PathNodes(Step(up, false, gparent, false, uncle)), Nodes(Join(false, parent, true, t, s))
      ensures At(Step(up, false, parent, false, Join(false, gparent, true, s, uncle)), t)
    {
      ghost var g := Step(up, false, gparent, false, uncle);
      Refocus(g, false, parent, true, t, s);
      BlackenParent(parent, gparent, Step(g, false, parent, true, s), t);
      var tmp := RotateLeft(gparent, up, uncle, gparent, true, s, parent, false, t);
      Refocus(up, false, parent, false, t, Join(false, gparent, true, s, uncle));
    }

    // One turn of the loop of RB_INSERT_COLOR when the parent is a left child (tree.h:396-412)
    method InsertTurnLeft(node: Node, above: Node, gparent: Node, ghost hole: Path, ghost subtree: Tree,
            ghost height: nat)
      returns (elm: Node, ghost p: Path, ghost t: Tree, ghost h: nat)
      requires At(hole, subtree) && RedUnderRed(hole, subtree, height) && hole.up.Step? && hole.up.isLeft == true
      requires Root(subtree) == node && hole.node == above && hole.up.node == gparent
      modifies this`root, PathNodes(hole), Nodes(subtree)
      ensures At(p, t) && Root(t) == elm && IsRed(t) && Good(t, h) && GoodPath(p, h)
      ensures PathNodes(p) + Nodes(t) == PathNodes(hole) + Nodes(subtree)
      ensures InOrder(Plug(p, t)) == InOrder(Plug(hole, subtree))
      ensures Depth(p) < Depth(hole)
    {
      hide InOrder;
      ghost var g := hole.up;
      ghost var u := Join(hole.isLeft, above, true, subtree, hole.sibling);
      RedParentHasBlackParent(hole, height);
      Refocus(g, hole.isLeft, above, true, subtree, hole.sibling);
      Children(g, u);
      var tmp := gparent.right;
      if tmp != null && tmp.red {
        RedUncleStep(hole, subtree, height);
        RedUncle(above, gparent, tmp, hole, subtree);
        elm := gparent;
        p, t, h := hole.up.up, RedUncleResult(hole, subtree), height + 1;
      } else {
        var parent;
        ghost var s;
        h := height;
        elm, parent, t, s := StraightenLeft(node, above, g, hole.isLeft, hole.sibling, subtree, h);
        PlugInOrder(g, Join(true, parent, true, t, s), u);
        OuterStep(true, gparent, g.up, g.sibling, parent, s, t, h);
        LiftLeft(elm, parent, gparent, g.up, g.sibling, s, t, h);
        p := Step(g.up, true, parent, false, Join(true, gparent, true, s, g.sibling));
      }
    }

    // One turn of the loop of RB_INSERT_COLOR when the parent is a right child (tree.h:413-429)
    method InsertTurnRight(node: Node, above: Node, gparent: Node, ghost hole: Path, ghost subtree: Tree,
            ghost height: nat)
      returns (elm: Node, ghost p: Path, ghost t: Tree, ghost h: nat)
      requires At(hole, subtree) && RedUnderRed(hole, subtree, height) && hole.up.Step? && hole.up.isLeft == false
      requires Root(subtree) == node && hole.node == above && hole.up.node == gparent
      modifies this`root, PathNodes(hole), Nodes(subtree)
      ensures At(p, t) && Root(t) == elm && IsRed(t) && Good(t, h) && GoodPath(p, h)
      ensures PathNodes(p) + Nodes(t) == PathNodes(hole) + Nodes(subtree)
      ensures InOrder(Plug(p, t)) == InOrder(Plug(hole, subtree))
      ensures Depth(p) < Depth(hole)
    {
      hide InOrder;
      ghost var g := hole.up;
      ghost var u := Join(hole.isLeft, above, true, subtree, hole.sibling);
      RedParentHasBlackParent(hole, height);
      Refocus(g, hole.isLeft, above, true, subtree, hole.sibling);
      Children(g, u);
      var tmp := gparent.left;
      if tmp != null && tmp.red {
        RedUncleStep(hole, subtree, height);
        RedUncle(above, gparent, tmp, hole, subtree);
        elm := gparent;
        p, t, h := hole.up.up, RedUncleResult(hole, subtree), height + 1;
      } else {
        var parent;
        ghost var s;
        h := height;
        elm, parent, t, s := StraightenRight(node, above, g, hole.isLeft, hole.sibling, subtree, h);
        PlugInOrder(g, Join(false, parent, true, t, s), u);
        OuterStep(false, gparent, g.up, g.sibling, parent, s, t, h);
        LiftRight(elm, parent, gparent, g.up, g.sibling, s, t, h);
        p := Step(g.up, false, parent, false, Join(false, gparent, true, s, g.sibling));
      }
    }

    // The root is painted black in any case (tree.h:431)
    method BlackenRoot(ghost p: Path, ghost t: Tree, ghost h: nat)
      requires At(p, t) && Good(t, h) && IsRed(t) && GoodPath(p, h) && (p.Step? ==> !p.red)
      modifies this, PathNodes(p), Nodes(t)
      ensures At(Top, shape) && RedBlack(shape)
      ensures InOrder(shape) == InOrder(Plug(p, t))
    {
      InsertDone(p, t, h);
      PlugAt(p, t);
      shape := Plug(p, t);
      Recolour(root, false, Top, shape);
      PaintInOrder(shape, false);
      shape := Paint(shape, false);
    }

    // RB_INSERT_COLOR (tree.h:391-432)
    method InsertColor(node: Node, ghost hole: Path, ghost subtree: Tree, ghost height: nat)
      returns (ghost turns: nat)
      requires At(hole, subtree) && Root(subtree) == node && IsRed(subtree)
      requires Good(subtree, height) && GoodPath(hole, height)
      modifies this, PathNodes(hole), Nodes(subtree)
      ensures At(Top, shape) && RedBlack(shape)
      ensures InOrder(shape) == InOrder(Plug(hole, subtree))
      ensures turns <= Depth(hole)
    {
      hide InOrder;
      var elm := node;
      turns := 0;
      ghost var p, t, h := hole, subtree, height;
      ghost var ns := PathNodes(p) + Nodes(t);
      while elm.parent != null && elm.parent.red
        invariant At(p, t) && Root(t) == elm && IsRed(t)
        invariant Good(t, h) && GoodPath(p, h)
        invariant PathNodes(p) + Nodes(t) == ns
        invariant InOrder(Plug(p, t)) == InOrder(Plug(hole, subtree))
        invariant turns + Depth(p) <= Depth(hole)
        decreases Depth(p)
      {
        turns := turns + 1;
        var parent := elm.parent;
        RedParentHasBlackParent(p, h);
        var gparent := parent.parent;
        Children(p, t);
        Refocus(p.up, p.isLeft, parent, true, t, p.sibling);
        Children(p.up, Join(p.isLeft, parent, true, t, p.sibling));
        if parent == gparent.left {
          elm, p, t, h := InsertTurnLeft(elm, parent, gparent, p, t, h);
        } else {
          elm, p, t, h := InsertTurnRight(elm, parent, gparent, p, t, h);
        }
      }
      BlackenRoot(p, t, h);
    }

    // RB_FIND (tree.h:610-624)
    method Find(elm: Node) returns (r: Node?, ghost turns: nat)
      requires Valid()
      ensures r != null ==> r in Nodes(shape) && r.key == elm.key
      ensures r == null ==> forall n | n in Nodes(shape) :: n.key != elm.key
      ensures turns <= Height(shape)
    {
      var tmp := root;
      turns := 0;
      ghost var p, t := Top, shape;
      while tmp != null
        invariant At(p, t) && tmp == Root(t) && Plug(p, t) == shape && Brackets(p, elm.key)
        invariant turns == Depth(p)
        decreases t
      {
        turns := turns + 1;
        DepthHeight(p, t);
        var comp := elm.key - tmp.key;
        Descend(p, t, elm.key);
        if comp < 0 {
          p, t := GoDown(p, t, true);
          tmp := tmp.left;
        } else if comp > 0 {
          p, t := GoDown(p, t, false);
          tmp := tmp.right;
        } else {
          PlugNodes(p, t);
          return tmp, turns;
        }
      }
      NotFound(p, elm);
      DepthHeight(p, t);
      return null, turns;
    }

    // RB_SET(elm, parent) and hanging `elm` below its parent (tree.h:596-604), field by field
    method LeafLinks(elm: Node, parent: Node?, comp: int)
      requires parent != elm
      modifies this`root, elm, AsSet(parent)
      ensures Has(elm, null, null, parent, true)
      ensures root == if parent == null then elm else old(root)
      ensures parent != null && comp < 0 ==>
                Has(parent, elm, old(parent.right), old(parent.parent), old(parent.red))
      ensures parent != null && comp >= 0 ==>
                Has(parent, old(parent.left), elm, old(parent.parent), old(parent.red))
    {
      elm.parent := parent;
      elm.left, elm.right := null, null;
      elm.red := true;
      if parent != null {
        if comp < 0 {
          parent.left := elm;
        } else {
          parent.right := elm;
        }
      } else {
        root := elm;
      }
    }

    // RB_SET(elm, parent) and hanging `elm` below its parent (tree.h:596-604), as a step between shapes
    method AttachLeaf(elm: Node, parent: Node?, comp: int, ghost p: Path)
      requires At(p, Nil) && parent == Owner(p) && elm !in PathNodes(p)
      requires p.Step? ==> (comp < 0 <==> p.isLeft)
      modifies this`root, elm, PathNodes(p)
      ensures At(p, Branch(Nil, elm, true, Nil))
    {
      hide Apart, Good, GoodPath;
      LeafTouches(p, elm);
      if p.Step? {
        assert allocated(Nodes(p.sibling)) && allocated(PathNodes(p.up));
        assert Linked(p.sibling, p.node) && LinkedPath(p.up, p.node, root);
      }
      LeafLinks(elm, parent, comp);
      if p.Step? {
        assert Linked(p.sibling, p.node) && LinkedPath(p.up, p.node, root);
      }
      assert LinkedPath(p, elm, root);
      assert Linked(Branch(Nil, elm, true, Nil), parent);
    }

    // RB_INSERT once the place of the new element is found (tree.h:596-605)
    method AddLeaf(elm: Node, parent: Node?, comp: int, ghost p: Path) returns (ghost turns: nat)
      requires At(p, Nil) && Plug(p, Nil) == shape && Brackets(p, elm.key)
      requires RedBlack(shape) && Sorted(InOrder(shape))
      requires parent == Owner(p) && (p.Step? ==> (comp < 0 <==> p.isLeft))
      modifies this, Nodes(shape), elm
      ensures Valid() && Nodes(shape) == old(Nodes(shape)) + {elm}
      ensures forall n | n in old(Nodes(shape)) :: n.key != elm.key
      ensures turns <= Depth(p)
    {
      NotFound(p, elm);
      PlugNodes(p, Nil);
      ghost var h := UnplugGood(p, Nil);
      AttachLeaf(elm, parent, comp, p);
      ghost var leaf := Branch(Nil, elm, true, Nil);
      turns := InsertColor(elm, p, leaf, h);
      SameNodes(shape, Plug(p, leaf));
      PlugNodes(p, leaf);
    }

    // RB_INSERT (tree.h:579-606)
    method Insert(elm: Node) returns (r: Node?, ghost turns: nat)
      requires Valid()
      modifies this, Nodes(shape), elm
      ensures Valid()
      ensures r == null <==> forall n | n in old(Nodes(shape)) :: n.key != elm.key
      ensures r == null ==> Nodes(shape) == old(Nodes(shape)) + {elm}
      ensures r != null ==> r in old(Nodes(shape)) && r.key == elm.key
      ensures r != null ==> shape == old(shape) && root == old(root) && unchanged(elm)
      ensures turns <= 2 * Height(old(shape))
    {
      var parent: Node? := null;
      var comp := 0;
      var tmp := root;
      turns := 0;
      ghost var p, t := Top, shape;
      while tmp != null
        invariant At(p, t) && tmp == Root(t) && Plug(p, t) == shape && Brackets(p, elm.key)
        invariant parent == Owner(p) && (p.Step? ==> (comp < 0 <==> p.isLeft)) && turns == Depth(p)
        decreases t
        modifies {}
      {
        turns := turns + 1;
        DepthHeight(p, t);
        parent := tmp;
        comp := elm.key - parent.key;
        Descend(p, t, elm.key);
        if comp < 0 {
          p, t := GoDown(p, t, true);
          tmp := tmp.left;
        } else if comp > 0 {
          p, t := GoDown(p, t, false);
          tmp := tmp.right;
        } else {
          PlugNodes(p, t);
          PlugAt(p, t);
          return tmp, turns;
        }
      }
      DepthHeight(p, t);
      ghost var more := AddLeaf(elm, parent, comp, p);
      return null, turns + more;
    }

    // ----- RB_REMOVE_COLOR -----

    /** The focus moves between the two children of the node above the hole. */
    lemma FocusSibling(up: Path, isLeft: bool, n: Node, red: bool, t: Tree, s: Tree)
      ensures At(Step(up, isLeft, n, red, s), t) <==> At(Step(up, !isLeft, n, red, t), s)
      ensures PathNodes(Step(up, isLeft, n, red, s)) + Nodes(t) == PathNodes(Step(up, !isLeft, n, red, t)) + Nodes(s)
    {
      Refocus(up, isLeft, n, red, t, s);
      Refocus(up, !isLeft, n, red, s, t);
    }

    method RecolourSibling(tmp: Node, red: bool, ghost p: Path, ghost t: Tree)
      requires At(p, t) && p.Step? && Root(p.sibling) == tmp
      modifies tmp`red
      ensures At(p.(sibling := Paint(p.sibling, red)), t)
    {
      FocusSibling(p.up, p.isLeft, p.node, p.red, t, p.sibling);
      Recolour(tmp, red, Step(p.up, !p.isLeft, p.node, p.red, t), p.sibling);
      FocusSibling(p.up, p.isLeft, p.node, p.red, t, Paint(p.sibling, red));
    }

    method RecolourOwner(parent: Node, red: bool, ghost p: Path, ghost t: Tree)
      requires At(p, t) && p.Step? && p.node == parent
      modifies parent`red
      ensures At(p.(red := red), t)
    {
      Refocus(p.up, p.isLeft, p.node, p.red, t, p.sibling);
      Recolour(parent, red, p.up, Join(p.isLeft, p.node, p.red, t, p.sibling));
      Refocus(p.up, p.isLeft, p.node, red, t, p.sibling);
    }

    /** What the children of the sibling look like to the loop. */
    lemma Nephews(p: Path, t: Tree)
      requires At(p, t) && p.Step? && p.sibling.Branch?
      ensures var s := p.sibling;
              && s.node.left == Root(s.left) && s.node.right == Root(s.right)
              && (s.left.Branch? ==> s.left.node.red == s.left.red)
              && (s.right.Branch? ==> s.right.node.red == s.right.red)
    {
      assert Linked(p.sibling, p.node);
      assert Linked(p.sibling.left, p.sibling.node) && Linked(p.sibling.right, p.sibling.node);
    }

    // RB_REMOVE_COLOR, red sibling (tree.h:443-447)
    method RedSiblingLeft(parent: Node, tmp: Node, ghost up: Path, ghost red: bool, ghost near: Tree, ghost far: Tree,
            ghost t: Tree)
      requires At(Step(up, true, parent, red, Join(true, tmp, true, near, far)), t)
      modifies this`root, PathNodes(Step(up, true, parent, red, Join(true, tmp, true, near, far))), Nodes(t)
      ensures At(Step(Step(up, true, tmp, false, far), true, parent, true, near), t)
    {
      ghost var p := Step(up, true, parent, red, Join(true, tmp, true, near, far));
      RecolourSibling(tmp, false, p, t);
      RecolourOwner(parent, true, p.(sibling := Join(true, tmp, false, near, far)), t);
      Refocus(up, true, parent, true, t, Join(true, tmp, false, near, far));
      var _ := RotateLeft(parent, up, t, parent, true, near, tmp, false, far);
      Refocus(up, true, tmp, false, Join(true, parent, true, t, near), far);
      Refocus(Step(up, true, tmp, false, far), true, parent, true, t, near);
    }

    // RB_REMOVE_COLOR, only the nephew near the hole is red (tree.h:456-464)
    method NearNephewLeft(tmp: Node, ghost up: Path, ghost parent: Node, ghost red: bool, ghost o: Node, ghost a: Tree,
            ghost b: Tree, ghost far: Tree, ghost t: Tree)
      requires At(Step(up, true, parent, red, Join(true, tmp, false, Join(true, o, true, a, b), far)), t)
      modifies this`root, PathNodes(Step(up, true, parent, red,
          Join(true, tmp, false, Join(true, o, true, a, b), far))), Nodes(t)
      ensures At(Step(up, true, parent, red, Join(true, o, false, a, Join(true, tmp, true, b, far))), t)
    {
      ghost var near := Join(true, o, true, a, b);
      ghost var q := Step(up, false, parent, red, t);
      FocusSibling(up, true, parent, red, t, Join(true, tmp, false, near, far));
      Refocus(q, true, tmp, false, near, far);
      var oleft := tmp.left;
      if oleft != null {
        Recolour(oleft, false, Step(q, true, tmp, false, far), near);
      }
      Refocus(q, true, tmp, false, Paint(near, false), far);
      Recolour(tmp, true, q, Join(true, tmp, false, Paint(near, false), far));
      oleft := RotateRight(tmp, q, a, o, false, b, tmp, true, far);
      FocusSibling(up, true, parent, red, t, Join(true, o, false, a, Join(true, tmp, true, b, far)));
    }

    // RB_REMOVE_COLOR, the nephew away from the hole is red (tree.h:465-471)
    method FarNephewLeft(parent: Node, tmp: Node, ghost up: Path, ghost red: bool, ghost near: Tree, ghost far: Tree,
            ghost t: Tree)
      requires At(Step(up, true, parent, red, Join(true, tmp, false, near, far)), t)
      modifies this`root, PathNodes(Step(up, true, parent, red, Join(true, tmp, false, near, far))), Nodes(t)
      ensures At(up, Join(true, tmp, red, Join(true, parent, false, t, near), Paint(far, false)))
    {
      ghost var p := Step(up, true, parent, red, Join(true, tmp, false, near, far));
      Children(p, t);
      RecolourSibling(tmp, parent.red, p, t);
      p := p.(sibling := Join(true, tmp, red, near, far));
      RecolourOwner(parent, false, p, t);
      FocusSibling(up, true, parent, false, t, Join(true, tmp, red, near, far));
      ghost var q := Step(up, false, parent, false, t);
      Refocus(q, false, tmp, red, far, near);
      if tmp.right != null {
        Recolour(tmp.right, false, Step(q, false, tmp, red, near), far);
      }
      Refocus(q, false, tmp, red, Paint(far, false), near);
      FocusSibling(up, true, parent, false, t, Join(true, tmp, red, near, Paint(far, false)));
      Refocus(up, true, parent, false, t, Join(true, tmp, red, near, Paint(far, false)));
      var _ := RotateLeft(parent, up, t, parent, false, near, tmp, red, Paint(far, false));
    }

    // RB_REMOVE_COLOR, the last step (tree.h:465-471): nothing is left to do
    method SettleLeft(parent: Node, tmp: Node, ghost hole: Path, ghost subtree: Tree, ghost height: nat)
      returns (ghost t: Tree)
      requires At(hole, subtree) && Deficit(hole, subtree, height) && !IsRed(subtree)
      requires hole.Step? && hole.isLeft == true && hole.node == parent && Root(hole.sibling) == tmp
          && !hole.sibling.red
      requires IsRed(Far(true, hole.sibling))
      modifies this`root, PathNodes(hole), Nodes(subtree)
      ensures At(Top, t) && RedBlack(t)
      ensures Nodes(t) == PathNodes(hole) + Nodes(subtree)
      ensures InOrder(t) == InOrder(Plug(hole, subtree))
    {
      ghost var up, red, near, far := hole.up, hole.red, Near(true, hole.sibling), Far(true, hole.sibling);
      FarNephewStep(up, true, parent, red, tmp, near, far, subtree, height);
      FarNephewLeft(parent, tmp, up, red, near, far, subtree);
      t := Join(true, tmp, red, Join(true, parent, false, subtree, near), Paint(far, false));
      PlugAt(up, t);
      t := Plug(up, t);
      PlugNodes(hole, subtree);
      SameNodes(t, Plug(hole, subtree));
    }

    // A turn of RB_REMOVE_COLOR with a black sibling that has a red child (tree.h:455-471)
    method RedNephewLeft(parent: Node, ghost hole: Path, ghost subtree: Tree, ghost height: nat) returns (ghost t: Tree)
      requires At(hole, subtree) && Deficit(hole, subtree, height) && !IsRed(subtree)
      requires hole.Step? && hole.isLeft == true && hole.node == parent && hole.sibling.Branch? && !hole.sibling.red
      requires IsRed(hole.sibling.left) || IsRed(hole.sibling.right)
      modifies this`root, PathNodes(hole), Nodes(subtree)
      ensures At(Top, t) && RedBlack(t)
      ensures Nodes(t) == PathNodes(hole) + Nodes(subtree)
      ensures InOrder(t) == InOrder(Plug(hole, subtree))
    {
      Children(hole, subtree);
      Nephews(hole, subtree);
      var tmp := parent.right;
      ghost var p := hole;
      if tmp.right == null || !tmp.right.red {
        ghost var near, far := Near(true, hole.sibling), Far(true, hole.sibling);
        ghost var o, a, b := near.node, Near(true, near), Far(true, near);
        NearNephewStep(hole.up, true, parent, hole.red, tmp, o, a, b, far, subtree, height);
        NearNephewLeft(tmp, hole.up, parent, hole.red, o, a, b, far, subtree);
        p := Step(hole.up, true, parent, hole.red, Join(true, o, false, a, Join(true, tmp, true, b, far)));
        PlugNodes(p, subtree);
        PlugNodes(hole, subtree);
        SameNodes(Plug(p, subtree), Plug(hole, subtree));
        Children(p, subtree);
        tmp := parent.right;
      }
      t := SettleLeft(parent, tmp, p, subtree, height);
    }

    // A turn of RB_REMOVE_COLOR once the sibling is black (tree.h:448-472)
    method BlackSiblingLeft(above: Node, ghost hole: Path, ghost subtree: Tree, ghost height: nat)
      returns (stop: bool, elm: Node?, parent: Node?, ghost p: Path, ghost t: Tree, ghost h: nat)
      requires At(hole, subtree) && Deficit(hole, subtree, height) && !IsRed(subtree)
      requires hole.Step? && hole.isLeft == true && hole.node == above && !IsRed(hole.sibling)
      modifies this`root, PathNodes(hole), Nodes(subtree)
      ensures At(p, t) && Deficit(p, t, h) && Root(t) == elm
      ensures PathNodes(p) + Nodes(t) == PathNodes(hole) + Nodes(subtree)
      ensures InOrder(Plug(p, t)) == InOrder(Plug(hole, subtree))
      ensures stop ==> p.Top? && !IsRed(t)
      ensures !stop ==> p == hole.up && parent == Owner(p) && (IsRed(t) <==> hole.red)
    {
      SiblingExists(hole, subtree, height);
      Children(hole, subtree);
      stop, parent := false, above;
      var tmp := parent.right;
      ghost var up, red, near, far := hole.up, hole.red, Near(true, hole.sibling), Far(true, hole.sibling);
      Nephews(hole, subtree);
      if (tmp.left == null || !tmp.left.red) && (tmp.right == null || !tmp.right.red) {
        BlackNephewsStep(up, true, parent, red, tmp, near, far, subtree, height);
        RecolourSibling(tmp, true, hole, subtree);
        p, t, h := up, Join(true, parent, red, subtree, Join(true, tmp, true, near, far)),
            if red then height else height + 1;
        Refocus(up, true, parent, red, subtree, Join(true, tmp, true, near, far));
        elm := parent;
        parent := elm.parent;
      } else {
        t := RedNephewLeft(parent, hole, subtree, height);
        p := Top;
        h :| Good(t, h);
        elm, stop := root, true;
      }
    }

    // One turn of the loop of RB_REMOVE_COLOR when the hole is a left child (tree.h:440-473)
    method RemoveTurnLeft(above: Node, ghost hole: Path, ghost subtree: Tree, ghost height: nat)
      returns (stop: bool, elm: Node?, parent: Node?, ghost p: Path, ghost t: Tree, ghost h: nat)
      requires At(hole, subtree) && Deficit(hole, subtree, height) && !IsRed(subtree)
      requires hole.Step? && hole.isLeft == true && hole.node == above
      modifies this`root, PathNodes(hole), Nodes(subtree)
      ensures At(p, t) && Deficit(p, t, h) && Root(t) == elm
      ensures PathNodes(p) + Nodes(t) == PathNodes(hole) + Nodes(subtree)
      ensures InOrder(Plug(p, t)) == InOrder(Plug(hole, subtree))
      ensures stop ==> p.Top? && !IsRed(t)
      ensures !stop ==> parent == Owner(p) && Work(p, t) < Work(hole, subtree)
    {
      parent := above;
      p := hole;
      SiblingExists(p, subtree, height);
      Children(p, subtree);
      var tmp := parent.right;
      if tmp.red {
        ghost var near, far := Near(true, p.sibling), Far(true, p.sibling);
        RedSiblingStep(p.up, true, parent, p.red, tmp, near, far, subtree, height);
        RedSiblingLeft(parent, tmp, p.up, p.red, near, far, subtree);
        p := Step(Step(p.up, true, tmp, false, far), true, parent, true, near);
      }
      stop, elm, parent, p, t, h := BlackSiblingLeft(parent, p, subtree, height);
    }

    // RB_REMOVE_COLOR, red sibling (tree.h:476-480)
    method RedSiblingRight(parent: Node, tmp: Node, ghost up: Path, ghost red: bool, ghost near: Tree, ghost far: Tree,
            ghost t: Tree)
      requires At(Step(up, false, parent, red, Join(false, tmp, true, near, far)), t)
      modifies this`root, PathNodes(Step(up, false, parent, red, Join(false, tmp, true, near, far))), Nodes(t)
      ensures At(Step(Step(up, false, tmp, false, far), false, parent, true, near), t)
    {
      ghost var p := Step(up, false, parent, red, Join(false, tmp, true, near, far));
      RecolourSibling(tmp, false, p, t);
      RecolourOwner(parent, true, p.(sibling := Join(false, tmp, false, near, far)), t);
      Refocus(up, false, parent, true, t, Join(false, tmp, false, near, far));
      var _ := RotateRight(parent, up, far, tmp, false, near, parent, true, t);
      Refocus(up, false, tmp, false, Join(false, parent, true, t, near), far);
      Refocus(Step(up, false, tmp, false, far), false, parent, true, t, near);
    }

    // RB_REMOVE_COLOR, only the nephew near the hole is red (tree.h:489-497)
    method NearNephewRight(tmp: Node, ghost up: Path, ghost parent: Node, ghost red: bool, ghost o: Node,
            ghost a: Tree, ghost b: Tree, ghost far: Tree, ghost t: Tree)
      requires At(Step(up, false, parent, red, Join(false, tmp, false, Join(false, o, true, a, b), far)), t)
      modifies this`root, PathNodes(Step(up, false, parent, red,
          Join(false, tmp, false, Join(false, o, true, a, b), far))), Nodes(t)
      ensures At(Step(up, false, parent, red, Join(false, o, false, a, Join(false, tmp, true, b, far))), t)
    {
      ghost var near := Join(false, o, true, a, b);
      ghost var q := Step(up, true, parent, red, t);
      FocusSibling(up, false, parent, red, t, Join(false, tmp, false, near, far));
      Refocus(q, false, tmp, false, near, far);
      var oleft := tmp.right;
      if oleft != null {
        Recolour(oleft, false, Step(q, false, tmp, false, far), near);
      }
      Refocus(q, false, tmp, false, Paint(near, false), far);
      Recolour(tmp, true, q, Join(false, tmp, false, Paint(near, false), far));
      oleft := RotateLeft(tmp, q, far, tmp, true, b, o, false, a);
      FocusSibling(up, false, parent, red, t, Join(false, o, false, a, Join(false, tmp, true, b, far)));
    }

    // RB_REMOVE_COLOR, the nephew away from the hole is red (tree.h:498-504)
    method FarNephewRight(parent: Node, tmp: Node, ghost up: Path, ghost red: bool, ghost near: Tree, ghost far: Tree,
            ghost t: Tree)
      requires At(Step(up, false, parent, red, Join(false, tmp, false, near, far)), t)
      modifies this`root, PathNodes(Step(up, false, parent, red, Join(false, tmp, false, near, far))), Nodes(t)
      ensures At(up, Join(false, tmp, red, Join(false, parent, false, t, near), Paint(far, false)))
    {
      ghost var p := Step(up, false, parent, red, Join(false, tmp, false, near, far));
      Children(p, t);
      RecolourSibling(tmp, parent.red, p, t);
      p := p.(sibling := Join(false, tmp, red, near, far));
      RecolourOwner(parent, false, p, t);
      FocusSibling(up, false, parent, false, t, Join(false, tmp, red, near, far));
      ghost var q := Step(up, true, parent, false, t);
      Refocus(q, true, tmp, red, far, near);
      if tmp.left != null {
        Recolour(tmp.left, false, Step(q, true, tmp, red, near), far);
      }
      Refocus(q, true, tmp, red, Paint(far, false), near);
      FocusSibling(up, false, parent, false, t, Join(false, tmp, red, near, Paint(far, false)));
      Refocus(up, false, parent, false, t, Join(false, tmp, red, near, Paint(far, false)));
      var _ := RotateRight(parent, up, Paint(far, false), tmp, red, near, parent, false, t);
    }

    // RB_REMOVE_COLOR, the last step (tree.h:498-504): nothing is left to do
    method SettleRight(parent: Node, tmp: Node, ghost hole: Path, ghost subtree: Tree, ghost height: nat)
      returns (ghost t: Tree)
      requires At(hole, subtree) && Deficit(hole, subtree, height) && !IsRed(subtree)
      requires hole.Step? && hole.isLeft == false && hole.node == parent && Root(hole.sibling) == tmp
          && !hole.sibling.red
      requires IsRed(Far(false, hole.sibling))
      modifies this`root, PathNodes(hole), Nodes(subtree)
      ensures At(Top, t) && RedBlack(t)
      ensures Nodes(t) == PathNodes(hole) + Nodes(subtree)
      ensures InOrder(t) == InOrder(Plug(hole, subtree))
    {
      ghost var up, red, near, far := hole.up, hole.red, Near(false, hole.sibling), Far(false, hole.sibling);
      FarNephewStep(up, false, parent, red, tmp, near, far, subtree, height);
      FarNephewRight(parent, tmp, up, red, near, far, subtree);
      t := Join(false, tmp, red, Join(false, parent, false, subtree, near), Paint(far, false));
      PlugAt(up, t);
      t := Plug(up, t);
      PlugNodes(hole, subtree);
      SameNodes(t, Plug(hole, subtree));
    }

    // A turn of RB_REMOVE_COLOR with a black sibling that has a red child (tree.h:488-504)
    method RedNephewRight(parent: Node, ghost hole: Path, ghost subtree: Tree, ghost height: nat)
      returns (ghost t: Tree)
      requires At(hole, subtree) && Deficit(hole, subtree, height) && !IsRed(subtree)
      requires hole.Step? && hole.isLeft == false && hole.node == parent && hole.sibling.Branch? && !hole.sibling.red
      requires IsRed(hole.sibling.left) || IsRed(hole.sibling.right)
      modifies this`root, PathNodes(hole), Nodes(subtree)
      ensures At(Top, t) && RedBlack(t)
      ensures Nodes(t) == PathNodes(hole) + Nodes(subtree)
      ensures InOrder(t) == InOrder(Plug(hole, subtree))
    {
      Children(hole, subtree);
      Nephews(hole, subtree);
      var tmp := parent.left;
      ghost var p := hole;
      if tmp.left == null || !tmp.left.red {
        ghost var near, far := Near(false, hole.sibling), Far(false, hole.sibling);
        ghost var o, a, b := near.node, Near(false, near), Far(false, near);
        NearNephewStep(hole.up, false, parent, hole.red, tmp, o, a, b, far, subtree, height);
        NearNephewRight(tmp, hole.up, parent, hole.red, o, a, b, far, subtree);
        p := Step(hole.up, false, parent, hole.red, Join(false, o, false, a, Join(false, tmp, true, b, far)));
        PlugNodes(p, subtree);
        PlugNodes(hole, subtree);
        SameNodes(Plug(p, subtree), Plug(hole, subtree));
        Children(p, subtree);
        tmp := parent.left;
      }
      t := SettleRight(parent, tmp, p, subtree, height);
    }

    // A turn of RB_REMOVE_COLOR once the sibling is black (tree.h:481-506)
    method BlackSiblingRight(above: Node, ghost hole: Path, ghost subtree: Tree, ghost height: nat)
      returns (stop: bool, elm: Node?, parent: Node?, ghost p: Path, ghost t: Tree, ghost h: nat)
      requires At(hole, subtree) && Deficit(hole, subtree, height) && !IsRed(subtree)
      requires hole.Step? && hole.isLeft == false && hole.node == above && !IsRed(hole.sibling)
      modifies this`root, PathNodes(hole), Nodes(subtree)
      ensures At(p, t) && Deficit(p, t, h) && Root(t) == elm
      ensures PathNodes(p) + Nodes(t) == PathNodes(hole) + Nodes(subtree)
      ensures InOrder(Plug(p, t)) == InOrder(Plug(hole, subtree))
      ensures stop ==> p.Top? && !IsRed(t)
      ensures !stop ==> p == hole.up && parent == Owner(p) && (IsRed(t) <==> hole.red)
    {
      SiblingExists(hole, subtree, height);
      Children(hole, subtree);
      stop, parent := false, above;
      var tmp := parent.left;
      ghost var up, red, near, far := hole.up, hole.red, Near(false, hole.sibling), Far(false, hole.sibling);
      Nephews(hole, subtree);
      if (tmp.left == null || !tmp.left.red) && (tmp.right == null || !tmp.right.red) {
        BlackNephewsStep(up, false, parent, red, tmp, near, far, subtree, height);
        RecolourSibling(tmp, true, hole, subtree);
        p, t, h := up, Join(false, parent, red, subtree, Join(false, tmp, true, near, far)),
            if red then height else height + 1;
        Refocus(up, false, parent, red, subtree, Join(false, tmp, true, near, far));
        elm := parent;
        parent := elm.parent;
      } else {
        t := RedNephewRight(parent, hole, subtree, height);
        p := Top;
        h :| Good(t, h);
        elm, stop := root, true;
      }
    }

    // One turn of the loop of RB_REMOVE_COLOR when the hole is a right child (tree.h:473-507)
    method RemoveTurnRight(above: Node, ghost hole: Path, ghost subtree: Tree, ghost height: nat)
      returns (stop: bool, elm: Node?, parent: Node?, ghost p: Path, ghost t: Tree, ghost h: nat)
      requires At(hole, subtree) && Deficit(hole, subtree, height) && !IsRed(subtree)
      requires hole.Step? && hole.isLeft == false && hole.node == above
      modifies this`root, PathNodes(hole), Nodes(subtree)
      ensures At(p, t) && Deficit(p, t, h) && Root(t) == elm
      ensures PathNodes(p) + Nodes(t) == PathNodes(hole) + Nodes(subtree)
      ensures InOrder(Plug(p, t)) == InOrder(Plug(hole, subtree))
      ensures stop ==> p.Top? && !IsRed(t)
      ensures !stop ==> parent == Owner(p) && Work(p, t) < Work(hole, subtree)
    {
      parent := above;
      p := hole;
      SiblingExists(p, subtree, height);
      Children(p, subtree);
      var tmp := parent.left;
      if tmp.red {
        ghost var near, far := Near(false, p.sibling), Far(false, p.sibling);
        RedSiblingStep(p.up, false, parent, p.red, tmp, near, far, subtree, height);
        RedSiblingRight(parent, tmp, p.up, p.red, near, far, subtree);
        p := Step(Step(p.up, false, tmp, false, far), false, parent, true, near);
      }
      stop, elm, parent, p, t, h := BlackSiblingRight(parent, p, subtree, height);
    }

    /** The hole is at the root exactly if what hangs in it is the root. */
    lemma {:induction false} RootAbove(p: Path, hole: Node?)
      requires LinkedPath(p, hole, root)
      ensures p.Step? ==> root in PathNodes(p)
      ensures p.Top? ==> root == hole
    {
      if p.Step? && p.up.Step? {
        RootAbove(p.up, p.node);
      }
    }

    // RB_REMOVE_COLOR (tree.h:435-508)
    method RemoveColor(above: Node?, child: Node?, ghost hole: Path, ghost subtree: Tree, ghost height: nat)
      returns (ghost turns: nat)
      requires At(hole, subtree) && Root(subtree) == child && Owner(hole) == above
      requires Deficit(hole, subtree, height)
      modifies this, PathNodes(hole), Nodes(subtree)
      ensures At(Top, shape) && RedBlack(shape)
      ensures InOrder(shape) == InOrder(Plug(hole, subtree))
      ensures turns <= Depth(hole) + 1
    {
      var parent, elm := above, child;
      var stop := false;
      turns := 0;
      ghost var p, t, h := hole, subtree, height;
      ghost var ns := PathNodes(p) + Nodes(t);
      RootAbove(p, elm);
      while !stop && (elm == null || !elm.red) && elm != root
        invariant At(p, t) && Deficit(p, t, h) && Root(t) == elm
        invariant PathNodes(p) + Nodes(t) == ns
        invariant InOrder(Plug(p, t)) == InOrder(Plug(hole, subtree))
        invariant if stop then p.Top? && !IsRed(t) else parent == Owner(p)
        invariant turns + (if stop then 0 else Work(p, t)) <= Work(hole, subtree)
        decreases !stop, Work(p, t)
      {
        turns := turns + 1;
        RootAbove(p, elm);
        SiblingExists(p, t, h);
        Children(p, t);
        if parent.left == elm {
          stop, elm, parent, p, t, h := RemoveTurnLeft(parent, p, t, h);
        } else {
          stop, elm, parent, p, t, h := RemoveTurnRight(parent, p, t, h);
        }
      }
      RootAbove(p, elm);
      RemoveDone(p, t, h);
      if elm != null {
        Recolour(elm, false, p, t);
      }
      PlugAt(p, Paint(t, false));
      shape := Plug(p, Paint(t, false));
    }

    // ----- RB_REMOVE -----

    // Splicing out a node with at most one child (tree.h:524-536, 561-571), field by field
    method UnlinkLinks(elm: Node, child: Node?, parent: Node?)
      requires child != null ==> child != parent && child != elm
      modifies this`root, AsSet(child), AsSet(parent)
      ensures child != null ==> Has(child, old(child.left), old(child.right), parent, old(child.red))
      ensures Relinked(parent, elm, child)
    {
      if child != null {
        child.parent := parent;
      }
      if parent != null {
        if parent.left == elm {
          parent.left := child;
        } else {
          parent.right := child;
        }
      } else {
        root := child;
      }
    }

    // Splicing out a node with at most one child, as a step between shapes
    method Unlink(elm: Node, child: Node?, parent: Node?, ghost p: Path, ghost t: Tree, ghost c: Tree)
      requires At(p, t) && t.Branch? && t.node == elm && parent == Owner(p) && child == Root(c)
      requires (t.left.Nil? && c == t.right) || (t.right.Nil? && c == t.left)
      modifies this`root, AsSet(child), AsSet(parent)
      ensures At(p, c)
      ensures elm != parent && elm != child && unchanged(elm)
    {
      if p.Step? {
        Children(p, t);
      }
      UnlinkTouches(p, t, c);
      assert Linked(c, elm);
      assert c.Branch? ==> Linked(c.left, c.node) && Linked(c.right, c.node);
      assert p.Step? ==> Linked(p.sibling, p.node) && LinkedPath(p.up, p.node, root);
      assert c.Branch? ==> allocated(Nodes(c.left)) && allocated(Nodes(c.right));
      assert p.Step? ==> allocated(Nodes(p.sibling)) && allocated(PathNodes(p.up));
      UnlinkLinks(elm, child, parent);
      assert c.Branch? ==> Linked(c.left, c.node) && Linked(c.right, c.node);
      assert p.Step? ==> Linked(p.sibling, p.node) && LinkedPath(p.up, p.node, root);
    }

    // The successor takes the place, links and colour of the removed node (tree.h:539-553), field by field
    method ReplaceLinks(out: Node, elm: Node, ghost l: Node, ghost r: Node?, ghost owner: Node?)
      requires out.left == l && out.right == r && out.parent == owner
      requires elm != out && elm != l && elm != r && elm != owner && l != out && l != r && l != owner && out != owner
      requires r != null ==> r != out && r != owner
      modifies this`root, {elm, l}, AsSet(r), AsSet(owner)
      ensures Has(elm, l, r, owner, old(out.red))
      ensures Has(l, old(l.left), old(l.right), elm, old(l.red))
      ensures r != null ==> Has(r, old(r.left), old(r.right), elm, old(r.red))
      ensures Relinked(owner, out, elm)
    {
      elm.left, elm.right, elm.parent, elm.red := out.left, out.right, out.parent, out.red;
      if out.parent != null {
        if out.parent.left == out {
          out.parent.left := elm;
        } else {
          out.parent.right := elm;
        }
      } else {
        root := elm;
      }
      out.left.parent := elm;
      if out.right != null {
        out.right.parent := elm;
      }
    }

    /** The same; what hangs around the two nodes stays linked. */
    method ReplaceAmong(out: Node, elm: Node, ghost p: Path, ghost l: Tree, ghost r: Tree)
      requires l.Branch? && LinkedAround(p, l, r, root)
      requires out.left == l.node && out.right == Root(r) && out.parent == Owner(p)
      requires elm !in Around(p, l, r) && l.node !in Around(p, l, r)
      requires Root(r) !in Around(p, l, r) && Owner(p) !in Around(p, l, r)
      requires out != elm && out != l.node && out != Root(r) && out != Owner(p)
      requires elm != l.node && elm != Root(r) && elm != Owner(p) && l.node != Root(r) && l.node != Owner(p)
      requires Owner(p) != null ==> Root(r) != Owner(p)
      modifies this`root, {elm, l.node}, AsSet(Root(r)), AsSet(Owner(p))
      ensures LinkedAround(p, l, r, old(root))
      ensures Has(elm, l.node, Root(r), Owner(p), old(out.red))
      ensures Has(l.node, old(l.node.left), old(l.node.right), elm, old(l.node.red))
      ensures r.Branch? ==> Has(r.node, old(r.node.left), old(r.node.right), elm, old(r.node.red))
      ensures Relinked(Owner(p), out, elm)
    {
      hide LinkedAround, Linked, LinkedPath, Around;
      assert allocated(Around(p, l, r));
      ReplaceLinks(out, elm, l.node, Root(r), Owner(p));
    }

    // The successor takes the place of the removed node, as a step between shapes
    method Replace(out: Node, elm: Node, ghost p: Path, ghost l: Tree, ghost red: bool, ghost r: Tree)
      requires At(p, Branch(l, out, red, r)) && l.Branch?
      requires elm !in PathNodes(p) && elm !in Nodes(Branch(l, out, red, r))
      modifies this`root, elm, PathNodes(p), Nodes(Branch(l, out, red, r))
      ensures At(p, Branch(l, elm, red, r))
    {
      hide Good, GoodPath, Apart;
      if p.Step? {
        Children(p, Branch(l, out, red, r));
      }
      ReplaceTouches(p, l, out, red, r, elm);
      assert Linked(l, out) && Linked(r, out);
      assert LinkedAround(p, l, r, root);
      ReplaceAmong(out, elm, p, l, r);
      assert Linked(l, elm) && Linked(r, elm);
      assert LinkedPath(p, elm, root);
      assert Linked(Branch(l, elm, red, r), Owner(p));
    }

    // The end of RB_REMOVE (tree.h:572-574): the colour of the node that left its place decides
    method Rebalance(red: bool, parent: Node?, child: Node?, ghost p: Path, ghost c: Tree, ghost h: nat)
      returns (ghost turns: nat)
      requires At(p, c) && child == Root(c) && parent == Owner(p)
      requires if red then GoodPath(p, h) && Good(c, h) && !IsRed(c) else h > 0 && Deficit(p, c, h - 1)
      modifies this, PathNodes(p), Nodes(c)
      ensures At(Top, shape) && RedBlack(shape)
      ensures InOrder(shape) == InOrder(Plug(p, c))
      ensures turns <= Depth(p) + 1
    {
      if !red {
        turns := RemoveColor(parent, child, p, c, h - 1);
      } else {
        turns := 0;
        PlugAt(p, c);
        PlugGood(p, c, h);
        shape := Plug(p, c);
      }
    }

    // RB_REMOVE when a child is missing (tree.h:515-518, 558-574)
    method RemoveThin(elm: Node, child: Node?, ghost p: Path, ghost t: Tree, ghost c: Tree)
      returns (ghost turns: nat)
      requires Valid() && Plug(p, t) == shape && t.Branch? && t.node == elm && child == Root(c)
      requires (t.left.Nil? && c == t.right) || (t.right.Nil? && c == t.left)
      modifies this, Nodes(shape)
      ensures Valid() && Nodes(shape) == old(Nodes(shape)) - {elm}
      ensures turns <= Height(old(shape))
    {
      DepthHeight(p, t);
      ghost var h := UnplugGood(p, t);
      SpliceStep(p, t, c, h);
      SpliceInOrder(p, t, c);
      PlugAt(p, t);
      PlugNodes(p, c);
      var parent := elm.parent;
      var color := elm.red;
      Unlink(elm, child, parent, p, t, c);
      turns := Rebalance(color, parent, child, p, c, h);
      SameNodes(shape, Plug(p, c));
    }

    // The successor of a node with two children (tree.h:520-522)
    method Successor(out: Node, ghost p: Path, ghost t: Tree)
      returns (elm: Node, ghost down: Path, ghost u: Tree, ghost turns: nat)
      requires At(p, t) && t.Branch? && t.node == out && t.right.Branch?
      ensures Leftmost(down) && u.Branch? && u.left.Nil? && u.node == elm && Plug(down, u) == t.right
      ensures At(Append(down, Step(p, false, out, t.red, t.left)), u)
      ensures Plug(Append(down, Step(p, false, out, t.red, t.left)), u) == Plug(p, t)
      ensures turns == Depth(down)
    {
      ghost var base := Step(p, false, out, t.red, t.left);
      ghost var q;
      q, u := GoDown(p, t, false);
      down, turns := Top, 0;
      elm := out.right;
      var left := elm.left;
      while left != null
        invariant u.Branch? && u.node == elm && left == elm.left
        invariant q == Append(down, base) && Leftmost(down) && At(q, u)
        invariant turns == Depth(down) && Plug(q, u) == Plug(p, t) && Plug(down, u) == t.right
        decreases u
      {
        turns := turns + 1;
        down := Step(down, true, elm, u.red, u.right);
        q, u := GoDown(q, u, true);
        elm := left;
        left := elm.left;
      }
    }

    // The shape surgery of RB_REMOVE when both children are there (tree.h:523-557): the successor
    // leaves its place below `down` and takes the place of `out`
    method Swap(out: Node, elm: Node, child: Node?, above: Node?, ghost p: Path, ghost l: Tree, ghost red: bool,
            ghost down: Path, ghost u: Tree)
      returns (parent: Node?)
      requires At(Append(down, Step(p, false, out, red, l)), u) && l.Branch?
      requires u.Branch? && u.node == elm && u.left.Nil? && child == Root(u.right)
      requires above == Owner(Append(down, Step(p, false, out, red, l)))
      modifies this`root, PathNodes(p), Nodes(Branch(l, out, red, Plug(down, u)))
      ensures At(Append(down, Step(p, false, elm, red, l)), u.right)
      ensures parent == Owner(Append(down, Step(p, false, elm, red, l)))
    {
      ghost var base, base', c := Step(p, false, out, red, l), Step(p, false, elm, red, l), u.right;
      ghost var q := Append(down, base);
      PlugNodes(down, u);
      PlugNodes(down, c);
      AppendOwner(down, base);
      parent := above;
      Unlink(elm, child, parent, q, u, c);
      if elm.parent == out {
        parent := elm;
      }
      PlugAt(q, c);
      PlugAppend(down, base, c);
      PlugAt(p, Branch(l, out, red, Plug(down, c)));
      SuccessorApart(p, l, out, red, down, u);
      Replace(out, elm, p, l, red, Plug(down, c));
      PlugAt(p, Branch(l, elm, red, Plug(down, c)));
      PlugAppend(down, base', c);
      PlugAt(Append(down, base'), c);
      AppendOwner(down, base');
    }

    // RB_REMOVE when both children are there (tree.h:519-557)
    method RemoveFull(out: Node, ghost p: Path, ghost t: Tree) returns (ghost turns: nat)
      requires Valid() && Plug(p, t) == shape && t.Branch? && t.node == out && t.left.Branch? && t.right.Branch?
      modifies this, Nodes(shape)
      ensures Valid() && Nodes(shape) == old(Nodes(shape)) - {out}
      ensures turns <= 2 * Height(old(shape))
    {
      PlugAt(p, t);
      var elm;
      ghost var down, u;
      elm, down, u, turns := Successor(out, p, t);
      ghost var q := Append(down, Step(p, false, out, t.red, t.left));
      ghost var q' := Append(down, Step(p, false, elm, t.red, t.left));
      DepthHeight(q, u);
      AppendDepth(down, Step(p, false, out, t.red, t.left));
      AppendDepth(down, Step(p, false, elm, t.red, t.left));
      ghost var h := UnplugGood(q, u);
      SpliceStep(q, u, u.right, h);
      RenameGoodPath(down, p, false, out, elm, t.red, t.left, h);
      SuccessorInOrder(p, t.left, out, t.red, down, elm, u.red, u.right);
      PlugAppend(down, Step(p, false, elm, t.red, t.left), u.right);
      PlugNodes(q', u.right);
      var child := elm.right;
      var parent := elm.parent;
      var color := elm.red;
      parent := Swap(out, elm, child, parent, p, t.left, t.red, down, u);
      ghost var more := Rebalance(color, parent, child, q', u.right, h);
      SameNodes(shape, Plug(q', u.right));
      turns := turns + more;
    }

    // RB_REMOVE (tree.h:513-575)
    method Remove(elm: Node) returns (r: Node, ghost turns: nat)
      requires Valid() && elm in Nodes(shape)
      modifies this, Nodes(shape)
      ensures Valid()
      ensures r == elm && Nodes(shape) == old(Nodes(shape)) - {elm}
      ensures turns <= 2 * Height(old(shape))
    {
      ghost var p, t := FindPath(Top, shape, elm);
      PlugAt(p, t);
      assert Linked(t, Owner(p));
      if elm.left == null {
        turns := RemoveThin(elm, elm.right, p, t, t.right);
      } else if elm.right == null {
        turns := RemoveThin(elm, elm.left, p, t, t.left);
      } else {
        turns := RemoveFull(elm, p, t);
      }
      return elm, turns;
    }

    // ----- Traversal -----

    // Descending to the leftmost node (tree.h:630-632)
    method LeftmostNode(node: Node, ghost hole: Path, ghost subtree: Tree)
      returns (elm: Node, ghost turns: nat)
      requires At(hole, subtree) && Root(subtree) == node
      ensures InOrder(subtree)[..1] == [elm] && turns < Height(subtree)
    {
      elm, turns := node, 0;
      ghost var p, t := hole, subtree;
      while elm.left != null
        invariant At(p, t) && Root(t) == elm && InOrder(t)[..1] == InOrder(subtree)[..1]
        invariant turns + Height(t) <= Height(subtree)
        decreases t
      {
        assert InOrder(t.left) != [] by { assert Linked(t, Owner(p)); }
        assert InOrder(t)[..1] == InOrder(t.left)[..1];
        p, t := GoDown(p, t, true);
        elm, turns := elm.left, turns + 1;
      }
      assert t.left.Nil? by { assert Linked(t, Owner(p)); }
      assert InOrder(t)[..1] == [elm];
    }

    // Climbing while the node is a right child, and once more (tree.h:638-641)
    method Climb(node: Node, ghost hole: Path, ghost subtree: Tree) returns (elm: Node?, ghost turns: nat)
      requires At(hole, subtree) && Root(subtree) == node
      ensures elm == At0(After(hole)) && turns <= Depth(hole)
    {
      elm, turns := node, 0;
      ghost var p, u := hole, subtree;
      while elm.parent != null && elm == elm.parent.right
        invariant elm != null && At(p, u) && Root(u) == elm && After(p) == After(hole)
        invariant turns + Depth(p) == Depth(hole)
        decreases p
      {
        Children(p, u);
        Refocus(p.up, p.isLeft, p.node, p.red, u, p.sibling);
        p, u := p.up, Join(p.isLeft, p.node, p.red, u, p.sibling);
        elm, turns := elm.parent, turns + 1;
      }
      if p.Step? {
        Children(p, u);
      }
      elm := elm.parent;
    }

    // RB_NEXT (tree.h:627-645)
    method Next(node: Node) returns (elm: Node?, ghost turns: nat)
      requires Valid() && node in Nodes(shape)
      ensures exists i :: 0 <= i < |InOrder(shape)| && InOrder(shape)[i] == node && elm == At0(InOrder(shape)[i + 1..])
      ensures HasNextKey(shape, node.key, elm) && turns <= Height(shape)
    {
      ghost var p, t := FindPath(Top, shape, node);
      PlugAt(p, t);
      AfterNode(p, t);
      assert Linked(t, Owner(p));
      elm, turns := node, 0;
      DepthHeight(p, t);
      if elm.right != null {
        ghost var q, u := GoDown(p, t, false);
        elm, turns := LeftmostNode(elm.right, q, u);
      } else {
        if p.Step? {
          Children(p, t);
        }
        if elm.parent != null && elm == elm.parent.left {
          elm := elm.parent;
        } else {
          elm, turns := Climb(elm, p, t);
        }
      }
      FollowerKey(shape, node, elm);
    }

    // RB_MINMAX (tree.h:648-661)
    method MinMax(val: int) returns (parent: Node?, ghost turns: nat)
      requires Valid()
      ensures val < 0 ==> parent == At0(InOrder(shape))
      ensures val >= 0 ==> parent == AtLast(InOrder(shape))
      ensures if val < 0 then HasLeastKey(shape, parent) else HasGreatestKey(shape, parent)
      ensures turns <= Height(shape)
    {
      var tmp := root;
      parent, turns := null, 0;
      ghost var p, t := Top, shape;
      while tmp != null
        invariant At(p, t) && tmp == Root(t) && Plug(p, t) == shape && parent == Owner(p)
        invariant if val < 0 then Before(p) == [] && parent == At0(After(p))
                  else After(p) == [] && parent == AtLast(Before(p))
        invariant turns == Depth(p)
        decreases t
      {
        parent, turns := tmp, turns + 1;
        if val < 0 {
          p, t := GoDown(p, t, true);
          tmp := tmp.left;
        } else {
          p, t := GoDown(p, t, false);
          tmp := tmp.right;
        }
      }
      PlugSplit(p, t);
      DepthHeight(p, t);
      EndKeys(shape);
    }

    // RB_FOREACH (tree.h:672-675), collecting the nodes it visits
    method Foreach() returns (visited: seq<Node>)
      requires Valid()
      ensures visited == InOrder(shape) && VisitsAll(visited, Nodes(shape))
    {
      hide RbTree.At, InOrder;
      assert allocated(Nodes(shape));
      visited := [];
      var x;
      ghost var turns;
      x, turns := MinMax(-1);
      while x != null
        invariant visited <= InOrder(shape) && x == At0(InOrder(shape)[|visited|..])
        decreases |InOrder(shape)| - |visited|
      {
        ghost var s, k := InOrder(shape), |visited|;
        assert s[k] == x;
        InOrderNodes(shape, x);
        visited := visited + [x];
        x, turns := Next(x);
        ghost var i :| 0 <= i < |s| && s[i] == s[k] && x == At0(s[i + 1..]);
        assert i == k;
      }
      VisitedAll(shape);
    }
  }
}
