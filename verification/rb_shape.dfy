/**
 The shape of a red-black tree as a value: which node hangs where and with which
 colour.  `Tree` is a (sub)tree, `Path` is the way from a subtree up to the root
 (the part of the tree around a hole).  Everything the rebalancing loops of tree.h
 promise is stated here about shapes; RbTree ties shapes to linked nodes.
 */
module RbShape {

  /** An element together with its RB_ENTRY fields.  `key` is what cmp looks at. */
  class Node {
    const key: int
    var left: Node?
    var right: Node?
    var parent: Node?
    var red: bool

    constructor (key: int)
      ensures this.key == key
    {
      this.key := key;
      left, right, parent, red := null, null, null, false;
    }
  }

  datatype Tree = Nil | Branch(left: Tree, node: Node, red: bool, right: Tree)

  /** The tree around a hole, from the hole upwards; `isLeft` says on which side
      of `node` the hole hangs and `sibling` is the subtree on the other side. */
  datatype Path = Top | Step(up: Path, isLeft: bool, node: Node, red: bool, sibling: Tree)

  // ----- Reading shapes -----

  function Root(t: Tree): Node? {
    if t.Nil? then null else t.node
  }

  /** The node just above the hole. */
  function Owner(p: Path): Node? {
    if p.Top? then null else p.node
  }

  predicate IsRed(t: Tree) {
    t.Branch? && t.red
  }

  function Paint(t: Tree, red: bool): Tree {
    match t
    case Nil => Nil
    case Branch(l, n, _, r) => Branch(l, n, red, r)
  }

  function Join(isLeft: bool, n: Node, red: bool, t: Tree, sibling: Tree): Tree {
    if isLeft then Branch(t, n, red, sibling) else Branch(sibling, n, red, t)
  }

  /** Fill the hole of `p` with `t`. */
  function Plug(p: Path, t: Tree): Tree
    decreases p
  {
    match p
    case Top => t
    case Step(up, isLeft, n, red, s) => Plug(up, Join(isLeft, n, red, t, s))
  }

  /** Put path `p` on top of path `base`: the root of `p` hangs in the hole of `base`. */
  function Append(p: Path, base: Path): Path {
    match p
    case Top => base
    case Step(up, isLeft, n, red, s) => Step(Append(up, base), isLeft, n, red, s)
  }

  function InOrder(t: Tree): seq<Node> {
    match t
    case Nil => []
    case Branch(l, n, _, r) => InOrder(l) + [n] + InOrder(r)
  }

  ghost function Nodes(t: Tree): set<Node> {
    match t
    case Nil => {}
    case Branch(l, n, _, r) => Nodes(l) + {n} + Nodes(r)
  }

  ghost function PathNodes(p: Path): set<Node> {
    match p
    case Top => {}
    case Step(up, _, n, _, s) => PathNodes(up) + {n} + Nodes(s)
  }

  function Depth(p: Path): nat {
    match p
    case Top => 0
    case Step(up, _, _, _, _) => 1 + Depth(up)
  }

  // ----- What a red-black tree is -----

  ghost predicate Sorted(s: seq<Node>) {
    forall i, j :: 0 <= i < j < |s| ==> s[i].key < s[j].key
  }

  /** Every path from the root of `t` down to a missing child meets `h` black nodes,
      and no red node has a red child. */
  ghost predicate Good(t: Tree, h: nat) {
    match t
    case Nil => h == 0
    case Branch(l, _, red, r) =>
      if red then !IsRed(l) && !IsRed(r) && Good(l, h) && Good(r, h)
      else h > 0 && Good(l, h - 1) && Good(r, h - 1)
  }

  /** `p` is what a red-black tree with a black root looks like around a hole that
      expects a subtree of black height `h`. */
  ghost predicate GoodPath(p: Path, h: nat) {
    match p
    case Top => true
    case Step(up, _, _, red, s) =>
      && Good(s, h)
      && (red ==> !IsRed(s) && up.Step? && !up.red)
      && GoodPath(up, if red then h else h + 1)
  }

  /** The colour of `t` is allowed in the hole of `p`. */
  predicate Fits(p: Path, t: Tree) {
    IsRed(t) ==> p.Step? && !p.red
  }

  lemma GoodJoin(isLeft: bool, n: Node, red: bool, t: Tree, s: Tree, h: nat)
    ensures Good(Join(isLeft, n, red, t, s), h) <==>
            if red then !IsRed(t) && !IsRed(s) && Good(t, h) && Good(s, h)
            else h > 0 && Good(t, h - 1) && Good(s, h - 1)
  {
  }

  ghost predicate RedBlack(t: Tree) {
    !IsRed(t) && exists h: nat :: Good(t, h)
  }

  // ----- Each node occurs once -----

  ghost predicate Distinct(t: Tree) {
    match t
    case Nil => true
    case Branch(l, n, _, r) =>
      && n !in Nodes(l) && n !in Nodes(r) && Nodes(l) !! Nodes(r)
      && Distinct(l) && Distinct(r)
  }

  ghost predicate DistinctPath(p: Path) {
    match p
    case Top => true
    case Step(up, _, n, _, s) =>
      && n !in PathNodes(up) && n !in Nodes(s) && PathNodes(up) !! Nodes(s)
      && DistinctPath(up) && Distinct(s)
  }

  ghost predicate Apart(p: Path, t: Tree) {
    DistinctPath(p) && Distinct(t) && PathNodes(p) !! Nodes(t)
  }

  // ----- Plugging -----

  lemma {:induction false} PlugNodes(p: Path, t: Tree)
    ensures Nodes(Plug(p, t)) == PathNodes(p) + Nodes(t)
    decreases p
  {
    if p.Step? {
      PlugNodes(p.up, Join(p.isLeft, p.node, p.red, t, p.sibling));
    }
  }

  lemma {:induction false} PlugDistinct(p: Path, t: Tree)
    ensures Distinct(Plug(p, t)) <==> Apart(p, t)
    decreases p
  {
    if p.Step? {
      PlugDistinct(p.up, Join(p.isLeft, p.node, p.red, t, p.sibling));
    }
  }

  /** Only the in-order sequence of what is plugged in matters for the in-order
      sequence of the whole. */
  lemma {:induction false} PlugInOrder(p: Path, t: Tree, u: Tree)
    requires InOrder(t) == InOrder(u)
    ensures InOrder(Plug(p, t)) == InOrder(Plug(p, u))
    decreases p
  {
    if p.Step? {
      PlugInOrder(p.up, Join(p.isLeft, p.node, p.red, t, p.sibling), Join(p.isLeft, p.node, p.red, u, p.sibling));
    }
  }

  lemma PaintInOrder(t: Tree, red: bool)
    ensures InOrder(Paint(t, red)) == InOrder(t) && Nodes(Paint(t, red)) == Nodes(t)
  {
  }

  lemma {:induction false} PlugBranch(p: Path, t: Tree)
    ensures Plug(p, t).Branch? <==> p.Step? || t.Branch?
    decreases p
  {
    if p.Step? {
      PlugBranch(p.up, Join(p.isLeft, p.node, p.red, t, p.sibling));
    }
  }

  /** A good subtree in a good path makes a red-black tree. */
  lemma {:induction false} PlugGood(p: Path, t: Tree, h: nat)
    requires GoodPath(p, h) && Good(t, h) && Fits(p, t)
    ensures RedBlack(Plug(p, t))
    decreases p
  {
    if p.Step? {
      PlugGood(p.up, Join(p.isLeft, p.node, p.red, t, p.sibling), if p.red then h else h + 1);
    }
  }

  /** Conversely, a red-black tree is good around and below every position in it. */
  lemma {:induction false} UnplugGood(p: Path, t: Tree) returns (h: nat)
    requires RedBlack(Plug(p, t))
    ensures GoodPath(p, h) && Good(t, h) && Fits(p, t)
    decreases p
  {
    match p
    case Top =>
      h :| Good(t, h);
    case Step(up, isLeft, n, red, s) =>
      var k := UnplugGood(up, Join(isLeft, n, red, t, s));
      h := if red then k else k - 1;
  }

  lemma {:induction false} PlugAppend(p: Path, base: Path, t: Tree)
    ensures Plug(Append(p, base), t) == Plug(base, Plug(p, t))
    decreases p
  {
    if p.Step? {
      PlugAppend(p.up, base, Join(p.isLeft, p.node, p.red, t, p.sibling));
    }
  }

  // ----- Order -----

  lemma {:induction false} InOrderNodes(t: Tree, n: Node)
    ensures n in InOrder(t) <==> n in Nodes(t)
  {
    if t.Branch? {
      InOrderNodes(t.left, n);
      InOrderNodes(t.right, n);
    }
  }

  lemma SameNodes(t: Tree, u: Tree)
    requires InOrder(t) == InOrder(u)
    ensures Nodes(t) == Nodes(u)
  {
    forall n | n in Nodes(t) + Nodes(u)
      ensures n in Nodes(t) && n in Nodes(u)
    {
      InOrderNodes(t, n);
      InOrderNodes(u, n);
    }
  }

  lemma {:induction false} SortedDistinct(t: Tree)
    requires Sorted(InOrder(t))
    ensures Distinct(t)
  {
    match t
    case Nil =>
    case Branch(l, n, _, r) =>
      var s := InOrder(t);
      var k := |InOrder(l)|;
      assert s[..k] == InOrder(l) && s[k] == n && s[k + 1..] == InOrder(r);
      SortedDistinct(l);
      SortedDistinct(r);
      forall m | m in Nodes(l)
        ensures m.key < n.key
      {
        InOrderNodes(l, m);
        var i :| 0 <= i < k && s[i] == m;
      }
      forall m | m in Nodes(r)
        ensures n.key < m.key
      {
        InOrderNodes(r, m);
        var i :| k < i < |s| && s[i] == m;
      }
  }

  // ----- Rotation -----

  /** The subtree before RB_ROTATE_LEFT (equally: after RB_ROTATE_RIGHT). */
  function LeanRight(a: Tree, x: Node, xred: bool, b: Tree, y: Node, yred: bool, c: Tree): Tree {
    Branch(a, x, xred, Branch(b, y, yred, c))
  }

  /** The subtree after RB_ROTATE_LEFT (equally: before RB_ROTATE_RIGHT). */
  function LeanLeft(a: Tree, x: Node, xred: bool, b: Tree, y: Node, yred: bool, c: Tree): Tree {
    Branch(Branch(a, x, xred, b), y, yred, c)
  }

  /** Rotating moves no node in the in-order sequence, loses none and duplicates none. */
  lemma RotationKeeps(a: Tree, x: Node, xred: bool, b: Tree, y: Node, yred: bool, c: Tree)
    ensures var l, r := LeanLeft(a, x, xred, b, y, yred, c), LeanRight(a, x, xred, b, y, yred, c);
            && InOrder(l) == InOrder(r)
            && Nodes(l) == Nodes(r)
            && (Distinct(l) <==> Distinct(r))
  {
    var l, r := LeanLeft(a, x, xred, b, y, yred, c), LeanRight(a, x, xred, b, y, yred, c);
    assert InOrder(l.left) == InOrder(a) + [x] + InOrder(b);
    assert InOrder(r.right) == InOrder(b) + [y] + InOrder(c);
    assert Nodes(l.left) == Nodes(a) + {x} + Nodes(b);
    assert Nodes(r.right) == Nodes(b) + {y} + Nodes(c);
  }

  /** What the distinctness of a rotated subtree says about its pieces. */
  lemma RotationDistinct(a: Tree, x: Node, xred: bool, b: Tree, y: Node, yred: bool, c: Tree)
    requires Distinct(LeanRight(a, x, xred, b, y, yred, c))
    ensures x != y && x !in Nodes(a) && x !in Nodes(b) && x !in Nodes(c)
    ensures y !in Nodes(a) && y !in Nodes(b) && y !in Nodes(c)
    ensures Nodes(a) !! Nodes(b) !! Nodes(c)
    ensures Distinct(a) && Distinct(b) && Distinct(c)
    ensures b.Branch? ==> b.node in Nodes(b)
    ensures Nodes(LeanRight(a, x, xred, b, y, yred, c)) == Nodes(a) + {x} + Nodes(b) + {y} + Nodes(c)
  {
    assert Distinct(Branch(b, y, yred, c));
  }
}
