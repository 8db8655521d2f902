/**
 What one turn of the two recolouring loops of tree.h does to black heights and colours.
 All lemmas are about shapes only.  `p`/`up` always is the path above the subtree that
 the turn rewrites, so "GoodPath(up, k) and Good(t, k)" says the turn has repaired the
 rewritten subtree for the rest of the tree.
 */
module RbBalance {
  import opened RbShape

  // ----- RB_INSERT_COLOR: a red node `t` under a red parent -----

  /** A red node in a good path has a black parent, so the grandparent exists. */
  lemma RedParentHasBlackParent(p: Path, h: nat)
    requires GoodPath(p, h) && p.Step? && p.red
    ensures p.up.Step? && !p.up.red && Good(p.sibling, h) && Good(p.up.sibling, h) && GoodPath(p.up.up, h + 1)
  {
  }

  ghost predicate RedUnderRed(p: Path, t: Tree, h: nat) {
    Good(t, h) && IsRed(t) && GoodPath(p, h) && p.Step? && p.red
  }

  /** The subtree at the grandparent after parent and uncle turned black and the grandparent red. */
  function RedUncleResult(p: Path, t: Tree): Tree
    requires p.Step? && p.up.Step?
  {
    Join(p.up.isLeft, p.up.node, true, Join(p.isLeft, p.node, false, t, p.sibling), Paint(p.up.sibling, false))
  }

  /** Red uncle: the violation moves up to the grandparent (tree.h:399-404, 415-420). */
  lemma RedUncleStep(p: Path, t: Tree, h: nat)
    requires RedUnderRed(p, t, h) && IsRed(p.up.sibling)
    ensures Good(RedUncleResult(p, t), h + 1) && IsRed(RedUncleResult(p, t)) && GoodPath(p.up.up, h + 1)
    ensures InOrder(Plug(p.up.up, RedUncleResult(p, t))) == InOrder(Plug(p, t))
    ensures Depth(p.up.up) < Depth(p)
  {
    RedParentHasBlackParent(p, h);
    PlugInOrder(p.up.up, RedUncleResult(p, t),
        Join(p.up.isLeft, p.up.node, false, Join(p.isLeft, p.node, true, t, p.sibling), p.up.sibling));
  }

  /** Black uncle, red grandchild `t` on the outside: parent turns black, the grandparent red, and a rotation
      at the grandparent leaves `t` below a black parent (tree.h:411-412, 427-428). */
  lemma OuterStep(isLeft: bool, g: Node, up: Path, uncle: Tree, n: Node, s: Tree, t: Tree, h: nat)
    requires Good(t, h) && IsRed(t) && Good(s, h) && !IsRed(s) && !IsRed(uncle)
    requires GoodPath(Step(up, isLeft, g, false, uncle), h)
    ensures GoodPath(Step(up, isLeft, n, false, Join(isLeft, g, true, s, uncle)), h)
    ensures InOrder(Plug(Step(up, isLeft, n, false, Join(isLeft, g, true, s, uncle)), t))
         == InOrder(Plug(Step(up, isLeft, g, false, uncle), Join(isLeft, n, true, t, s)))
    ensures PathNodes(Step(up, isLeft, n, false, Join(isLeft, g, true, s, uncle))) + Nodes(t)
         == PathNodes(Step(up, isLeft, g, false, uncle)) + Nodes(Join(isLeft, n, true, t, s))
  {
    if isLeft {
      RotationKeeps(t, n, true, s, g, false, uncle);
    } else {
      RotationKeeps(uncle, g, false, s, n, true, t);
    }
    assert InOrder(Join(isLeft, g, true, s, uncle)) == InOrder(Join(isLeft, g, false, s, uncle));
    PlugInOrder(up, Join(isLeft, n, false, t, Join(isLeft, g, true, s, uncle)),
        Join(isLeft, g, false, Join(isLeft, n, true, t, s), uncle));
  }

  /** The loop stops below a black parent or at the root; with the root painted black the tree is repaired. */
  lemma InsertDone(p: Path, t: Tree, h: nat)
    requires Good(t, h) && IsRed(t) && GoodPath(p, h) && (p.Step? ==> !p.red)
    ensures Plug(p, t).Branch? && RedBlack(Paint(Plug(p, t), false))
  {
    if p.Top? {
      assert Good(Paint(t, false), h + 1);
    } else {
      PlugGood(p, t, h);
      var out := Plug(p, t);
      PlugBranch(p, t);
      assert Paint(out, false) == out;
    }
  }

  // ----- RB_REMOVE_COLOR: the subtree `t` lacks one black node -----

  /** The hole of `p` expects one more black node than `t` has; a red `t` makes up for it once painted black. */
  ghost predicate Deficit(p: Path, t: Tree, h: nat) {
    GoodPath(p, h + 1) && if IsRed(t) then Good(Paint(t, false), h + 1) else Good(t, h)
  }

  /** The sibling of a subtree that lacks a black node exists, so the loop never dereferences null. */
  lemma SiblingExists(p: Path, t: Tree, h: nat)
    requires Deficit(p, t, h) && p.Step?
    ensures p.sibling.Branch?
  {
  }

  /** The child of `s` on the side of the hole, and the one away from it. */
  function Near(isLeft: bool, s: Tree): Tree
    requires s.Branch?
  {
    if isLeft then s.left else s.right
  }

  function Far(isLeft: bool, s: Tree): Tree
    requires s.Branch?
  {
    if isLeft then s.right else s.left
  }

  /** What is left to do: nothing above a red subtree, else one turn for each node above the hole. */
  function Work(p: Path, t: Tree): nat {
    if IsRed(t) then 0 else Depth(p) + 1
  }

  lemma RotateToward(isLeft: bool, n: Node, red: bool, t: Tree, m: Node, mred: bool, near: Tree, far: Tree, red': bool,
          mred': bool)
    ensures InOrder(Join(isLeft, m, mred', Join(isLeft, n, red', t, near), far))
        == InOrder(Join(isLeft, n, red, t, Join(isLeft, m, mred, near, far)))
    ensures Nodes(Join(isLeft, m, mred', Join(isLeft, n, red', t, near), far))
        == Nodes(Join(isLeft, n, red, t, Join(isLeft, m, mred, near, far)))
  {
    if isLeft {
      RotationKeeps(t, n, red, near, m, mred, far);
      PaintInOrder(Branch(t, n, red, near), red');
    } else {
      RotationKeeps(far, m, mred, near, n, red, t);
      PaintInOrder(Branch(near, n, red, t), red');
    }
  }

  /** Red sibling: it turns black, the parent red, and a rotation gives the hole a black sibling (tree.h:443-447,
      476-480). */
  lemma RedSiblingStep(up: Path, isLeft: bool, n: Node, red: bool, m: Node, near: Tree, far: Tree, t: Tree, h: nat)
    requires Deficit(Step(up, isLeft, n, red, Join(isLeft, m, true, near, far)), t, h) && !IsRed(t)
    ensures !red && !IsRed(near)
    ensures Deficit(Step(Step(up, isLeft, m, false, far), isLeft, n, true, near), t, h)
    ensures InOrder(Plug(Step(Step(up, isLeft, m, false, far), isLeft, n, true, near), t))
         == InOrder(Plug(Step(up, isLeft, n, red, Join(isLeft, m, true, near, far)), t))
  {
    GoodJoin(isLeft, m, true, near, far, h + 1);
    RotateToward(isLeft, n, red, t, m, true, near, far, true, false);
    PlugInOrder(up, Join(isLeft, m, false, Join(isLeft, n, true, t, near), far),
        Join(isLeft, n, red, t, Join(isLeft, m, true, near, far)));
  }

  /** Black sibling with black children: it turns red and the deficit moves to the parent (tree.h:448-454, 481-487). */
  lemma BlackNephewsStep(up: Path, isLeft: bool, n: Node, red: bool, m: Node, near: Tree, far: Tree, t: Tree, h: nat)
    requires Deficit(Step(up, isLeft, n, red, Join(isLeft, m, false, near, far)), t, h) && !IsRed(t)
    requires !IsRed(near) && !IsRed(far)
    ensures Deficit(up, Join(isLeft, n, red, t, Join(isLeft, m, true, near, far)), if red then h else h + 1)
    ensures InOrder(Plug(up, Join(isLeft, n, red, t, Join(isLeft, m, true, near, far))))
         == InOrder(Plug(Step(up, isLeft, n, red, Join(isLeft, m, false, near, far)), t))
  {
    GoodJoin(isLeft, m, false, near, far, h + 1);
    GoodJoin(isLeft, m, true, near, far, h);
    PaintInOrder(Join(isLeft, m, false, near, far), true);
    PlugInOrder(up, Join(isLeft, n, red, t, Join(isLeft, m, true, near, far)),
        Join(isLeft, n, red, t, Join(isLeft, m, false, near, far)));
  }

  /** Only the near nephew is red: a rotation at the sibling makes the far nephew red (tree.h:456-464, 489-497). */
  lemma NearNephewStep(up: Path, isLeft: bool, n: Node, red: bool, m: Node, o: Node, a: Tree, b: Tree, far: Tree,
          t: Tree, h: nat)
    requires Deficit(Step(up, isLeft, n, red, Join(isLeft, m, false, Join(isLeft, o, true, a, b), far)), t, h)
        && !IsRed(t)
    requires !IsRed(far)
    ensures Deficit(Step(up, isLeft, n, red, Join(isLeft, o, false, a, Join(isLeft, m, true, b, far))), t, h)
    ensures InOrder(Plug(Step(up, isLeft, n, red, Join(isLeft, o, false, a, Join(isLeft, m, true, b, far))), t))
         == InOrder(Plug(Step(up, isLeft, n, red, Join(isLeft, m, false, Join(isLeft, o, true, a, b), far)), t))
  {
    GoodJoin(isLeft, m, false, Join(isLeft, o, true, a, b), far, h + 1);
    GoodJoin(isLeft, o, true, a, b, h);
    GoodJoin(isLeft, m, true, b, far, h);
    GoodJoin(isLeft, o, false, a, Join(isLeft, m, true, b, far), h + 1);
    RotateToward(isLeft, o, false, a, m, true, b, far, true, false);
    PlugInOrder(up, Join(isLeft, n, red, t, Join(isLeft, o, false, a, Join(isLeft, m, true, b, far))),
                Join(isLeft, n, red, t, Join(isLeft, m, false, Join(isLeft, o, true, a, b), far)));
  }

  /** The far nephew is red: recolouring and one rotation at the parent repair the tree (tree.h:465-471, 498-504). */
  lemma FarNephewStep(up: Path, isLeft: bool, n: Node, red: bool, m: Node, near: Tree, far: Tree, t: Tree, h: nat)
    requires Deficit(Step(up, isLeft, n, red, Join(isLeft, m, false, near, far)), t, h) && !IsRed(t)
    requires IsRed(far)
    ensures RedBlack(Plug(up, Join(isLeft, m, red, Join(isLeft, n, false, t, near), Paint(far, false))))
    ensures InOrder(Plug(up, Join(isLeft, m, red, Join(isLeft, n, false, t, near), Paint(far, false))))
         == InOrder(Plug(Step(up, isLeft, n, red, Join(isLeft, m, false, near, far)), t))
  {
    var u := Join(isLeft, m, red, Join(isLeft, n, false, t, near), Paint(far, false));
    PaintInOrder(far, false);
    RotateToward(isLeft, n, red, t, m, false, near, Paint(far, false), false, red);
    PlugInOrder(up, u, Join(isLeft, n, red, t, Join(isLeft, m, false, near, far)));
    GoodJoin(isLeft, m, false, near, far, h + 1);
    GoodJoin(isLeft, n, false, t, near, h + 1);
    GoodJoin(isLeft, m, red, Join(isLeft, n, false, t, near), Paint(far, false), if red then h + 1 else h + 2);
    PlugGood(up, u, if red then h + 1 else h + 2);
  }

  /** The loop stops at a red subtree, which is painted black, or at the root. */
  lemma RemoveDone(p: Path, t: Tree, h: nat)
    requires Deficit(p, t, h) && (IsRed(t) || p.Top?)
    ensures RedBlack(Plug(p, Paint(t, false)))
    ensures InOrder(Plug(p, Paint(t, false))) == InOrder(Plug(p, t))
  {
    PaintInOrder(t, false);
    PlugInOrder(p, Paint(t, false), t);
    if IsRed(t) {
      PlugGood(p, Paint(t, false), h + 1);
    } else {
      assert Paint(t, false) == t;
    }
  }

  // ----- RB_REMOVE: what splicing out a node leaves -----

  /** Splicing out a red node leaves a red-black tree, a black one leaves a deficit in its place. */
  lemma SpliceStep(p: Path, t: Tree, c: Tree, h: nat)
    requires t.Branch? && Good(t, h) && GoodPath(p, h)
    requires (t.left.Nil? && c == t.right) || (t.right.Nil? && c == t.left)
    ensures t.red ==> Good(c, h) && !IsRed(c)
    ensures !t.red ==> h > 0 && Deficit(p, c, h - 1)
  {
  }

  /** Heights and colours do not depend on which node sits where. */
  lemma {:induction false} RenameGoodPath(down: Path, p: Path, isLeft: bool, n: Node, e: Node, red: bool, s: Tree,
          h: nat)
    requires GoodPath(Append(down, Step(p, isLeft, n, red, s)), h)
    ensures GoodPath(Append(down, Step(p, isLeft, e, red, s)), h)
    decreases down
  {
    if down.Step? {
      RenameGoodPath(down.up, p, isLeft, n, e, red, s, if down.red then h else h + 1);
    }
  }
}
