/**
 The splay tree of tree.h as linked nodes.  `shape` is the ghost record of how the nodes
 hang below the root.
 */
module SplayTree {
  import opened Powers
  import opened SplayBalance
  import opened SplayShape
  import opened SplayWalk

  ghost predicate Linked(t: Tree)
    reads Nodes(t)
  {
    match t
    case Nil => true
    case Branch(l, n, r) => n.left == Root(l) && n.right == Root(r) && Linked(l) && Linked(r)
  }

  /** The left tree hangs at `header.right` and grows at the right end. */
  ghost predicate LeftEdge(e: Edge, header: Node)
    reads EdgeNodes(e), header`right
  {
    match e
    case End => true
    case Link(up, n, s) => Last(up, header).right == n && n.left == Root(s) && Linked(s) && LeftEdge(up, header)
  }

  /** The right tree hangs at `header.left` and grows at the left end. */
  ghost predicate RightEdge(e: Edge, header: Node)
    reads EdgeNodes(e), header`left
  {
    match e
    case End => true
    case Link(up, n, s) => Last(up, header).left == n && n.right == Root(s) && Linked(s) && RightEdge(up, header)
  }

  /** The tree taken apart: left tree `l`, middle tree `t`, right tree `r`. */
  ghost predicate Open(root: Node?, l: Edge, t: Tree, r: Edge, header: Node)
    reads EdgeNodes(l), Nodes(t), EdgeNodes(r), header
  {
    Apart(l, t, r, header) && root == Root(t) && Linked(t) && LeftEdge(l, header) && RightEdge(r, header)
  }

  /** The parts that a step moves or leaves alone as wholes. */
  ghost function Around(l: Edge, a: Tree, b: Tree, c: Tree, r: Edge): set<Node> {
    EdgeNodes(l) + Nodes(a) + Nodes(b) + Nodes(c) + EdgeNodes(r)
  }

  ghost predicate LinkedAround(l: Edge, a: Tree, b: Tree, c: Tree, r: Edge, header: Node)
    reads Around(l, a, b, c, r), header
  {
    Linked(a) && Linked(b) && Linked(c) && LeftEdge(l, header) && RightEdge(r, header)
  }

  ghost function Inner(e: Edge): set<Node> {
    if e.End? then {} else Nodes(e.side) + EdgeNodes(e.up)
  }

  /** All of the left tree but its last node. */
  ghost predicate InnerLeft(e: Edge, header: Node)
    reads Inner(e), header`right
  {
    e.Link? ==> Linked(e.side) && LeftEdge(e.up, header)
  }

  /** All of the right tree but its last node. */
  ghost predicate InnerRight(e: Edge, header: Node)
    reads Inner(e), header`left
  {
    e.Link? ==> Linked(e.side) && RightEdge(e.up, header)
  }

  class SplayTree {
    var root: Node?
    ghost var shape: Tree

    /** A search tree, correctly linked. */
    ghost predicate Valid()
      reads this, Nodes(shape)
    {
      root == Root(shape) && Linked(shape) && Sorted(InOrder(shape))
    }

    // SPLAY_INIT (tree.h:65-67)
    constructor ()
      ensures Valid() && Nodes(shape) == {}
    {
      root := null;
      shape := Nil;
    }

    // SPLAY_ROTATE_RIGHT (tree.h:81-85), field by field
    method RotateRightLinks(tmp: Node, ghost x: Node, ghost l: Edge, ghost a: Tree, ghost b: Tree, ghost c: Tree,
            ghost r: Edge, ghost header: Node)
      requires root == x && LinkedAround(l, a, b, c, r, header) && tmp != x
      requires x !in Around(l, a, b, c, r) && tmp !in Around(l, a, b, c, r) && x != header && tmp != header
      modifies this`root, x`left, tmp`right
      ensures LinkedAround(l, a, b, c, r, header)
      ensures x.left == old(tmp.right) && tmp.right == x && root == tmp
    {
      hide LinkedAround, Around;
      assert allocated(Around(l, a, b, c, r));
      root.left := tmp.right;
      tmp.right := root;
      root := tmp;
    }

    // SPLAY_ROTATE_LEFT (tree.h:87-91), field by field
    method RotateLeftLinks(tmp: Node, ghost x: Node, ghost l: Edge, ghost a: Tree, ghost b: Tree, ghost c: Tree,
            ghost r: Edge, ghost header: Node)
      requires root == x && LinkedAround(l, a, b, c, r, header) && tmp != x
      requires x !in Around(l, a, b, c, r) && tmp !in Around(l, a, b, c, r) && x != header && tmp != header
      modifies this`root, x`right, tmp`left
      ensures LinkedAround(l, a, b, c, r, header)
      ensures x.right == old(tmp.left) && tmp.left == x && root == tmp
    {
      hide LinkedAround, Around;
      assert allocated(Around(l, a, b, c, r));
      root.right := tmp.left;
      tmp.left := root;
      root := tmp;
    }

    // SPLAY_ROTATE_RIGHT, as a step between shapes
    method RotateRight(tmp: Node, ghost l: Edge, ghost a: Tree, ghost y: Node, ghost b: Tree, ghost x: Node,
            ghost c: Tree, ghost r: Edge, ghost header: Node)
      requires Open(root, l, Branch(Branch(a, y, b), x, c), r, header) && tmp == y
      modifies this`root, x, y
      ensures Open(root, l, Branch(a, y, Branch(b, x, c)), r, header)
    {
      hide Apart;
      RotationApart(l, a, y, b, x, c, r, header);
      assert Linked(Branch(a, y, b));
      RotateRightLinks(tmp, x, l, a, b, c, r, header);
      assert LinkedAround(l, a, b, c, r, header);
      assert Linked(Branch(b, x, c));
      assert Linked(Branch(a, y, Branch(b, x, c)));
    }

    // SPLAY_ROTATE_LEFT, as a step between shapes
    method RotateLeft(tmp: Node, ghost l: Edge, ghost a: Tree, ghost x: Node, ghost b: Tree, ghost y: Node,
            ghost c: Tree, ghost r: Edge, ghost header: Node)
      requires Open(root, l, Branch(a, x, Branch(b, y, c)), r, header) && tmp == y
      modifies this`root, x, y
      ensures Open(root, l, Branch(Branch(a, x, b), y, c), r, header)
    {
      hide Apart;
      RotationApart(l, a, x, b, y, c, r, header);
      assert Linked(Branch(b, y, c));
      RotateLeftLinks(tmp, x, l, a, b, c, r, header);
      assert LinkedAround(l, a, b, c, r, header);
      assert Linked(Branch(a, x, b));
      assert Linked(Branch(Branch(a, x, b), y, c));
    }

    // SPLAY_LINKLEFT (tree.h:93-97), field by field; `tmp` is the last node of the right tree
    method LinkLeftLinks(tmp: Node, ghost l: Edge, ghost a: Tree, ghost b: Tree, ghost r: Edge, ghost header: Node)
      returns (tmp': Node)
      requires root != null && tmp == Last(r, header) && root != tmp
      requires Linked(a) && Linked(b) && LeftEdge(l, header) && InnerRight(r, header) && (r.Link? ==> tmp != header)
      requires tmp !in Nodes(a) && tmp !in Nodes(b) && tmp !in EdgeNodes(l) && tmp !in Inner(r)
      modifies this`root, tmp`left
      ensures Linked(a) && Linked(b) && LeftEdge(l, header) && InnerRight(r, header)
      ensures tmp.left == tmp' == old(root) && root == old(root.left)
    {
      hide Linked, LeftEdge, RightEdge;
      assert allocated(Nodes(a)) && allocated(Nodes(b)) && allocated(EdgeNodes(l)) && allocated(Inner(r));
      assert r.Link? ==> allocated(Nodes(r.side)) && allocated(EdgeNodes(r.up));
      tmp.left := root;
      tmp' := root;
      root := root.left;
    }

    // SPLAY_LINKRIGHT (tree.h:99-103), field by field; `tmp` is the last node of the left tree
    method LinkRightLinks(tmp: Node, ghost l: Edge, ghost a: Tree, ghost b: Tree, ghost r: Edge, ghost header: Node)
      returns (tmp': Node)
      requires root != null && tmp == Last(l, header) && root != tmp
      requires Linked(a) && Linked(b) && RightEdge(r, header) && InnerLeft(l, header) && (l.Link? ==> tmp != header)
      requires tmp !in Nodes(a) && tmp !in Nodes(b) && tmp !in EdgeNodes(r) && tmp !in Inner(l)
      modifies this`root, tmp`right
      ensures Linked(a) && Linked(b) && RightEdge(r, header) && InnerLeft(l, header)
      ensures tmp.right == tmp' == old(root) && root == old(root.right)
    {
      hide Linked, LeftEdge, RightEdge;
      assert allocated(Nodes(a)) && allocated(Nodes(b)) && allocated(EdgeNodes(r)) && allocated(Inner(l));
      assert l.Link? ==> allocated(Nodes(l.side)) && allocated(EdgeNodes(l.up));
      tmp.right := root;
      tmp' := root;
      root := root.right;
    }

    // SPLAY_LINKLEFT, as a step between shapes
    method LinkLeft(tmp: Node, ghost l: Edge, ghost t: Tree, ghost r: Edge, ghost header: Node) returns (tmp': Node)
      requires Open(root, l, t, r, header) && t.Branch? && t.left.Branch? && tmp == Last(r, header)
      modifies this`root, tmp`left
      ensures Open(root, l, t.left, Link(r, t.node, t.right), header) && tmp' == t.node
    {
      hide Apart;
      LinkApart(l, t, r, header);
      assert Linked(t.left) && Linked(t.right);
      assert InnerRight(r, header);
      tmp' := LinkLeftLinks(tmp, l, t.left, t.right, r, header);
      assert RightEdge(r, header);
      assert RightEdge(Link(r, t.node, t.right), header);
    }

    // SPLAY_LINKRIGHT, as a step between shapes
    method LinkRight(tmp: Node, ghost l: Edge, ghost t: Tree, ghost r: Edge, ghost header: Node) returns (tmp': Node)
      requires Open(root, l, t, r, header) && t.Branch? && t.right.Branch? && tmp == Last(l, header)
      modifies this`root, tmp`right
      ensures Open(root, Link(l, t.node, t.left), t.right, r, header) && tmp' == t.node
    {
      hide Apart;
      LinkApart(l, t, r, header);
      assert Linked(t.left) && Linked(t.right);
      assert InnerLeft(l, header);
      tmp' := LinkRightLinks(tmp, l, t.left, t.right, r, header);
      assert LeftEdge(l, header);
      assert LeftEdge(Link(l, t.node, t.left), header);
    }

    // The rotation of a turn of the splay loop (tree.h:213-222); `stop` says that nothing is left to descend to
    method ZigLeft(k: int, ghost l: Edge, ghost middle: Tree, ghost r: Edge, ghost header: Node)
      returns (stop: bool, ghost t: Tree)
      requires Open(root, l, middle, r, header) && middle.Branch?
      requires k < middle.node.key && Sorted(InOrder(middle))
      modifies this`root, Nodes(middle)
      ensures Open(root, l, t, r, header) && t.Branch? && k < t.node.key
      ensures InOrder(t) == InOrder(middle) && Nodes(t) == Nodes(middle)
      ensures t == ZigLeftShape(middle, k) && (stop <==> t.left.Nil?)
    {
      t := middle;
      SortedParts(InOrder(t.left), [t.node], InOrder(t.right));
      assert t.node in [t.node];
      var tmp := root.left;
      if tmp == null {
        return true, t;
      }
      if k < tmp.key {
        RotationKeeps(t.left.left, t.left.node, t.left.right, t.node, t.right);
        RotateRight(tmp, l, t.left.left, t.left.node, t.left.right, t.node, t.right, r, header);
        t := Branch(t.left.left, t.left.node, Branch(t.left.right, t.node, t.right));
        if root.left == null {
          return true, t;
        }
      }
      return false, t;
    }

    // One turn of the splay loop for a key below the root (tree.h:213-222)
    method TurnLeft(k: int, last: Node, ghost middle: Tree, ghost edge: Edge, ghost l: Edge, ghost header: Node)
      returns (stop: bool, right: Node, ghost t: Tree, ghost r: Edge)
      requires Open(root, l, middle, edge, header) && middle.Branch? && last == Last(edge, header)
      requires k < middle.node.key && Sorted(WholeOrder(l, middle, edge)) && Above(RightOrder(edge), k)
      modifies this`root, EdgeNodes(edge), Nodes(middle), header
      ensures Open(root, l, t, r, header) && t.Branch? && right == Last(r, header)
      ensures WholeOrder(l, t, r) == WholeOrder(l, middle, edge) && Above(RightOrder(r), k)
      ensures Nodes(t) + EdgeNodes(r) == Nodes(middle) + EdgeNodes(edge)
      ensures var z := ZigLeftShape(middle, k);
              && (stop <==> z.left.Nil?)
              && if stop then t == z && r == edge else t == z.left && r == Link(edge, z.node, z.right)
      ensures stop ==> Separates(t, k)
      ensures !stop ==> |InOrder(t)| < |InOrder(middle)|
    {
      hide Apart, Linked, Sorted, LeftEdge, RightEdge;
      right, r := last, edge;
      SortedParts(LeftOrder(l), InOrder(middle), RightOrder(r));
      stop, t := ZigLeft(k, l, middle, r, header);
      SortedParts(InOrder(t.left), [t.node], InOrder(t.right));
      assert t.node in [t.node];
      if !stop {
        LinkLeftKeeps(l, t, r);
        right := LinkLeft(right, l, t, r, header);
        r, t := Link(r, t.node, t.right), t.left;
      }
    }

    // The rotation of a turn of the splay loop (tree.h:223-232); `stop` says that nothing is left to descend to
    method ZigRight(k: int, ghost l: Edge, ghost middle: Tree, ghost r: Edge, ghost header: Node)
      returns (stop: bool, ghost t: Tree)
      requires Open(root, l, middle, r, header) && middle.Branch?
      requires k > middle.node.key && Sorted(InOrder(middle))
      modifies this`root, Nodes(middle)
      ensures Open(root, l, t, r, header) && t.Branch? && k > t.node.key
      ensures InOrder(t) == InOrder(middle) && Nodes(t) == Nodes(middle)
      ensures t == ZigRightShape(middle, k) && (stop <==> t.right.Nil?)
    {
      t := middle;
      SortedParts(InOrder(t.left), [t.node], InOrder(t.right));
      assert t.node in [t.node];
      var tmp := root.right;
      if tmp == null {
        return true, t;
      }
      if k > tmp.key {
        RotationKeeps(t.left, t.node, t.right.left, t.right.node, t.right.right);
        RotateLeft(tmp, l, t.left, t.node, t.right.left, t.right.node, t.right.right, r, header);
        t := Branch(Branch(t.left, t.node, t.right.left), t.right.node, t.right.right);
        if root.right == null {
          return true, t;
        }
      }
      return false, t;
    }

    // One turn of the splay loop for a key above the root (tree.h:223-232)
    method TurnRight(k: int, last: Node, ghost middle: Tree, ghost edge: Edge, ghost r: Edge, ghost header: Node)
      returns (stop: bool, left: Node, ghost t: Tree, ghost l: Edge)
      requires Open(root, edge, middle, r, header) && middle.Branch? && last == Last(edge, header)
      requires k > middle.node.key && Sorted(WholeOrder(edge, middle, r)) && Below(LeftOrder(edge), k)
      modifies this`root, EdgeNodes(edge), Nodes(middle), header
      ensures Open(root, l, t, r, header) && t.Branch? && left == Last(l, header)
      ensures WholeOrder(l, t, r) == WholeOrder(edge, middle, r) && Below(LeftOrder(l), k)
      ensures Nodes(t) + EdgeNodes(l) == Nodes(middle) + EdgeNodes(edge)
      ensures var z := ZigRightShape(middle, k);
              && (stop <==> z.right.Nil?)
              && if stop then t == z && l == edge else t == z.right && l == Link(edge, z.node, z.left)
      ensures stop ==> Separates(t, k)
      ensures !stop ==> |InOrder(t)| < |InOrder(middle)|
    {
      hide Apart, Linked, Sorted;
      left, l := last, edge;
      SortedParts(LeftOrder(l), InOrder(middle), RightOrder(r));
      stop, t := ZigRight(k, l, middle, r, header);
      SortedParts(InOrder(t.left), [t.node], InOrder(t.right));
      assert t.node in [t.node];
      if !stop {
        LinkRightKeeps(l, t, r);
        left := LinkRight(left, l, t, r, header);
        l, t := Link(l, t.node, t.left), t.right;
      }
    }

    /** Filling the hole of the left tree. */
    lemma {:induction false} CloseLeftLinked(e: Edge, t: Tree, header: Node)
      requires LeftEdge(e, header) && Last(e, header).right == Root(t) && Linked(t)
      ensures Linked(CloseLeft(e, t)) && header.right == Root(CloseLeft(e, t))
      decreases e
    {
      if e.Link? {
        CloseLeftLinked(e.up, Branch(e.side, e.node, t), header);
      }
    }

    /** Filling the hole of the right tree. */
    lemma {:induction false} CloseRightLinked(e: Edge, t: Tree, header: Node)
      requires RightEdge(e, header) && Last(e, header).left == Root(t) && Linked(t)
      ensures Linked(CloseRight(e, t)) && header.left == Root(CloseRight(e, t))
      decreases e
    {
      if e.Link? {
        CloseRightLinked(e.up, Branch(t, e.node, e.side), header);
      }
    }

    // The first half of SPLAY_ASSEMBLE (tree.h:106-107), field by field
    method CloseLinks(left: Node, right: Node, ghost l: Edge, ghost a: Tree, ghost b: Tree, ghost r: Edge,
            ghost header: Node)
      requires root != null && left == Last(l, header) && right == Last(r, header) && root != left && root != right
      requires Linked(a) && Linked(b) && InnerLeft(l, header) && InnerRight(r, header)
      requires (l.Link? ==> left != header) && (r.Link? ==> right != header)
      requires left !in Nodes(a) && left !in Nodes(b) && left !in Inner(l) && left !in Inner(r)
      requires right !in Nodes(a) && right !in Nodes(b) && right !in Inner(l) && right !in Inner(r)
      modifies left`right, right`left
      ensures Linked(a) && Linked(b) && InnerLeft(l, header) && InnerRight(r, header)
      ensures left.right == old(root.left) && right.left == old(root.right)
    {
      hide Linked, LeftEdge, RightEdge;
      assert allocated(Nodes(a)) && allocated(Nodes(b));
      assert l.Link? ==> allocated(Nodes(l.side)) && allocated(EdgeNodes(l.up));
      assert r.Link? ==> allocated(Nodes(r.side)) && allocated(EdgeNodes(r.up));
      left.right := root.left;
      right.left := root.right;
    }

    lemma CloseApart(l: Edge, t: Tree, r: Edge, header: Node)
      requires Apart(l, t, r, header) && t.Branch?
      ensures var n := Last(l, header);
              && n != t.node && n !in Nodes(t.left) && n !in Nodes(t.right) && n !in Inner(l) && n !in Inner(r)
              && (l.Link? ==> n != header)
      ensures var n := Last(r, header);
              && n != t.node && n !in Nodes(t.left) && n !in Nodes(t.right) && n !in Inner(l) && n !in Inner(r)
              && (r.Link? ==> n != header)
      ensures l.Link? ==> l.node != Last(l.up, header) && l.node != Last(r, header)
      ensures r.Link? ==> r.node != Last(r.up, header) && r.node != Last(l, header)
    {
      LinkApart(l, t, r, header);
    }

    // The first half of SPLAY_ASSEMBLE: the subtrees of the root fill both holes
    method CloseBoth(left: Node, right: Node, ghost l: Edge, ghost t: Tree, ghost r: Edge, ghost header: Node)
      requires Open(root, l, t, r, header) && t.Branch? && left == Last(l, header) && right == Last(r, header)
      modifies left`right, right`left
      ensures Linked(CloseLeft(l, t.left)) && header.right == Root(CloseLeft(l, t.left))
      ensures Linked(CloseRight(r, t.right)) && header.left == Root(CloseRight(r, t.right))
    {
      hide Apart, Inner, CloseLeft, CloseRight;
      CloseApart(l, t, r, header);
      assert Linked(t.left) && Linked(t.right);
      assert InnerLeft(l, header) && InnerRight(r, header);
      CloseLinks(left, right, l, t.left, t.right, r, header);
      assert LeftEdge(l, header);
      assert RightEdge(r, header);
      CloseLeftLinked(l, t.left, header);
      CloseRightLinked(r, t.right, header);
    }

    // SPLAY_ASSEMBLE (tree.h:105-110)
    method Assemble(node: Node, left: Node, right: Node, ghost l: Edge, ghost t: Tree, ghost r: Edge)
      requires Open(root, l, t, r, node) && t.Branch? && left == Last(l, node) && right == Last(r, node)
      requires Sorted(WholeOrder(l, t, r))
      modifies this, EdgeNodes(l), Nodes(t), EdgeNodes(r), node
      ensures Valid() && shape == Branch(CloseLeft(l, t.left), t.node, CloseRight(r, t.right))
      ensures InOrder(shape) == WholeOrder(l, t, r)
      ensures Nodes(shape) == EdgeNodes(l) + Nodes(t) + EdgeNodes(r)
    {
      hide LeftEdge, RightEdge, Sorted, WholeOrder;
      AssembleOrder(l, t, r);
      shape := Branch(CloseLeft(l, t.left), t.node, CloseRight(r, t.right));
      SortedDistinct(shape);
      CloseBoth(left, right, l, t, r, node);
      assert allocated(Nodes(CloseLeft(l, t.left))) && allocated(Nodes(CloseRight(r, t.right)));
      root.left := node.right;
      root.right := node.left;
      assert Linked(CloseLeft(l, t.left)) && Linked(CloseRight(r, t.right));
    }

    // The loop of name_SPLAY (tree.h:211-233)
    method TakeApart(k: int, node: Node, ghost whole: Tree)
      returns (left: Node, right: Node, ghost l: Edge, ghost t: Tree, ghost r: Edge, ghost turns: nat)
      requires Open(root, End, whole, End, node) && whole.Branch? && Sorted(InOrder(whole))
      modifies this`root, node, Nodes(whole)
      ensures Open(root, l, t, r, node) && t.Branch? && left == Last(l, node) && right == Last(r, node)
      ensures WholeOrder(l, t, r) == InOrder(whole) && EdgeNodes(l) + Nodes(t) + EdgeNodes(r) == Nodes(whole)
      ensures Below(LeftOrder(l), k) && Above(RightOrder(r), k)
      ensures t.node.key == k || Separates(t, k)
      ensures Ended(whole, k, l, t, r, turns)
    {
      hide Apart, Linked, Sorted, InOrder, Remains, Ended;
      left, right := node, node;
      l, t, r, turns := End, whole, End, 0;
      var comp := k - root.key;
      assert WholeOrder(l, t, r) == InOrder(whole);
      AllRemains(whole, k);
      while comp != 0
        invariant Open(root, l, t, r, node) && t.Branch? && comp == k - root.key
        invariant left == Last(l, node) && right == Last(r, node)
        invariant WholeOrder(l, t, r) == InOrder(whole) && EdgeNodes(l) + Nodes(t) + EdgeNodes(r) == Nodes(whole)
        invariant Below(LeftOrder(l), k) && Above(RightOrder(r), k)
        invariant Remains(whole, k, l, t, r, turns)
        decreases |InOrder(t)|
      {
        var stop := false;
        if comp < 0 {
          TurnLeftRemains(whole, k, l, t, r, turns);
          stop, right, t, r := TurnLeft(k, right, t, r, l, node);
        } else if comp > 0 {
          TurnRightRemains(whole, k, l, t, r, turns);
          stop, left, t, l := TurnRight(k, left, t, l, r, node);
        }
        turns := turns + 1;
        if stop {
          break;
        }
        comp := k - root.key;
      }
      if comp == 0 {
        NothingRemains(whole, k, l, t, r, turns);
      }
    }

    // name_SPLAY (tree.h:203-235)
    method Splay(elm: Node) returns (ghost turns: nat)
      requires Valid() && root != null
      modifies this, Nodes(shape)
      ensures Valid() && InOrder(shape) == old(InOrder(shape)) && Nodes(shape) == old(Nodes(shape))
      ensures Separates(shape, elm.key) && RootDivides(shape, elm.key)
      ensures shape == Splayed(old(shape), elm.key) && turns == SplayTurns(old(shape), elm.key)
    {
      SortedDistinct(shape);
      assert allocated(Nodes(shape));
      var node := new Node(0);
      ghost var l, t, r;
      var left, right;
      left, right, l, t, r, turns := TakeApart(elm.key, node, shape);
      AssembleSeparates(l, t, r, elm.key);
      Assemble(node, left, right, l, t, r);
      SeparatesKeys(shape, elm.key);
    }

    // SPLAY_FIND (tree.h:121-130)
    method Find(elm: Node) returns (r: Node?, ghost turns: nat)
      requires Valid()
      modifies this, Nodes(shape)
      ensures Valid() && InOrder(shape) == old(InOrder(shape)) && Nodes(shape) == old(Nodes(shape))
      ensures r == null <==> forall n | n in Nodes(shape) :: n.key != elm.key
      ensures r != null ==> r in Nodes(shape) && r.key == elm.key && r == root
      ensures shape == Served(old(shape), Access(elm.key)) && turns == ServedTurns(old(shape), Access(elm.key))
    {
      if root == null {
        return null, 0;
      }
      turns := Splay(elm);
      KeyAtRoot(shape, elm.key);
      if elm.key - root.key == 0 {
        return root, turns;
      }
      return null, turns;
    }

    // SPLAY_INSERT, the key is below the root (tree.h:167-170)
    method PutBelow(elm: Node)
      requires Valid() && root != null && Separates(shape, elm.key) && elm.key < root.key
      modifies this, root`left, elm
      ensures Valid() && Nodes(shape) == old(Nodes(shape)) + {elm} && root == elm
      ensures shape == WithRoot(old(shape), elm)
    {
      InsertKeeps(shape, elm);
      SortedDistinct(shape);
      assert allocated(Nodes(shape.left)) && allocated(Nodes(shape.right));
      assert Linked(shape.left) && Linked(shape.right);
      elm.left := root.left;
      elm.right := root;
      root.left := null;
      assert (Linked(shape.left) && Linked(shape.right)) == true;
      assert Linked(Branch(Nil, root, shape.right));
      shape := Branch(shape.left, elm, Branch(Nil, root, shape.right));
      root := elm;
    }

    // SPLAY_INSERT, the key is above the root (tree.h:171-174)
    method PutAbove(elm: Node)
      requires Valid() && root != null && Separates(shape, elm.key) && elm.key > root.key
      modifies this, root`right, elm
      ensures Valid() && Nodes(shape) == old(Nodes(shape)) + {elm} && root == elm
      ensures shape == WithRoot(old(shape), elm)
    {
      InsertKeeps(shape, elm);
      SortedDistinct(shape);
      assert allocated(Nodes(shape.left)) && allocated(Nodes(shape.right));
      assert Linked(shape.left) && Linked(shape.right);
      elm.right := root.right;
      elm.left := root;
      root.right := null;
      assert (Linked(shape.left) && Linked(shape.right)) == true;
      assert Linked(Branch(shape.left, root, Nil));
      shape := Branch(Branch(shape.left, root, Nil), elm, shape.right);
      root := elm;
    }

    // SPLAY_INSERT (tree.h:158-180)
    method Insert(elm: Node) returns (r: Node?, ghost turns: nat)
      requires Valid()
      modifies this, Nodes(shape), elm
      ensures Valid()
      ensures r == null <==> forall n | n in old(Nodes(shape)) :: n.key != elm.key
      ensures r == null ==> Nodes(shape) == old(Nodes(shape)) + {elm} && root == elm
      ensures r != null ==> Nodes(shape) == old(Nodes(shape)) && r in Nodes(shape) && r.key == elm.key
      ensures shape == Served(old(shape), Add(elm)) && turns == ServedTurns(old(shape), Add(elm))
    {
      turns := 0;
      if root == null {
        elm.left, elm.right := null, null;
        shape := Branch(Nil, elm, Nil);
        root := elm;
      } else {
        turns := Splay(elm);
        KeyAtRoot(shape, elm.key);
        var comp := elm.key - root.key;
        if comp < 0 {
          PutBelow(elm);
        } else if comp > 0 {
          PutAbove(elm);
        } else {
          return root, turns;
        }
      }
      return null, turns;
    }

    // SPLAY_RIGHT((head)->sph_root, field) = tmp (tree.h:195)
    method Attach(tmp: Node?, ghost rest: Tree)
      requires shape.Branch? && root == shape.node && Linked(shape) && Linked(rest) && tmp == Root(rest)
      requires shape.node !in Nodes(shape.left) && shape.node !in Nodes(rest)
      modifies this`shape, root`right
      ensures root == old(root) && shape == Branch(old(shape).left, old(shape).node, rest) && Linked(shape)
    {
      assert allocated(Nodes(shape.left)) && allocated(Nodes(rest));
      assert Linked(shape.left) && Linked(rest);
      root.right := tmp;
      assert (Linked(shape.left) && Linked(rest)) == true;
      shape := Branch(shape.left, shape.node, rest);
    }

    // SPLAY_REMOVE once the key is at the root and smaller keys are left (tree.h:192-195)
    method JoinSides(elm: Node) returns (ghost turns: nat)
      requires Valid() && root != null && root.left != null && root.key == elm.key
      modifies this, Nodes(shape)
      ensures Valid() && Removes(old(InOrder(shape)), InOrder(shape), elm.key)
      ensures shape == Rejoined(Splayed(old(shape).left, elm.key), old(shape).right)
      ensures turns == SplayTurns(old(shape).left, elm.key)
    {
      hide Sorted, Removes, InOrder, Separates, RootDivides, Served;
      RemoveOrder(shape, elm.key);
      SortedDistinct(shape);
      ghost var rest := shape.right;
      assert Linked(shape.left) && Linked(rest);
      assert allocated(Nodes(rest));
      var tmp := root.right;
      root := root.left;
      shape := shape.left;
      turns := Splay(elm);
      SortedDistinct(shape);
      ReSplayed(shape, rest, elm.key);
      Attach(tmp, rest);
    }

    // SPLAY_REMOVE (tree.h:182-201)
    method Remove(elm: Node) returns (r: Node?, ghost turns: nat)
      requires Valid()
      modifies this, Nodes(shape)
      ensures Valid()
      ensures r == if exists n :: n in old(Nodes(shape)) && n.key == elm.key then elm else null
      ensures r == null ==> InOrder(shape) == old(InOrder(shape))
      ensures r != null ==> Removes(old(InOrder(shape)), InOrder(shape), elm.key)
      ensures shape == Served(old(shape), Drop(elm.key)) && turns == ServedTurns(old(shape), Drop(elm.key))
    {
      hide Sorted, Removes, InOrder, Separates;
      if root == null {
        return null, 0;
      }
      turns := Splay(elm);
      KeyAtRoot(shape, elm.key);
      if elm.key - root.key == 0 {
        RemoveOrder(shape, elm.key);
        if root.left == null {
          root := root.right;
          shape := shape.right;
        } else {
          ghost var more := JoinSides(elm);
          turns := turns + more;
        }
        return elm, turns;
      }
      return null, turns;
    }

    // The walk of SPLAY_NEXT (tree.h:136-143)
    method Follower() returns (r: Node?, ghost steps: nat)
      requires Valid() && root != null
      ensures Valid() && r == First(InOrder(shape.right)) && steps == Spine(shape.right)
    {
      assert Linked(shape.right);
      if root.right == null {
        return null, 0;
      }
      r, steps := root.right, 1;
      ghost var t := shape.right;
      while r.left != null
        invariant t.Branch? && Root(t) == r && Linked(t) && First(InOrder(t)) == First(InOrder(shape.right))
        invariant steps + Spine(t.left) == Spine(shape.right)
        decreases t
      {
        r, steps := r.left, steps + 1;
        t := t.left;
      }
      assert t.left.Nil?;
    }

    // SPLAY_NEXT (tree.h:132-145)
    method Next(elm: Node) returns (r: Node?, ghost turns: nat, ghost steps: nat)
      requires Valid() && elm in Nodes(shape)
      modifies this, Nodes(shape)
      ensures Valid() && InOrder(shape) == old(InOrder(shape)) && Nodes(shape) == old(Nodes(shape))
      ensures exists i :: 0 <= i < |InOrder(shape)| && InOrder(shape)[i] == elm && r == First(InOrder(shape)[i + 1..])
      ensures var q := After(elm.key);
              && shape == Served(old(shape), q) && turns == ServedTurns(old(shape), q)
              && r == Found(old(shape), q) && steps == Steps(old(shape), q)
      ensures HasNextKey(shape, elm.key, r)
    {
      hide RootDivides, HasNextKey, Sorted;
      turns := Splay(elm);
      RootHasKey(shape, elm);
      ghost var s, i := InOrder(shape), |InOrder(shape.left)|;
      assert s[i] == elm && s[i + 1..] == InOrder(shape.right);
      r, steps := Follower();
      FollowerKey(shape, elm, r);
    }

    // One turn of the loop of name_SPLAY_MINMAX towards the minimum (tree.h:249-258)
    method MinTurn(ghost k: int, last: Node, ghost middle: Tree, ghost edge: Edge, ghost header: Node)
      returns (stop: bool, right: Node, ghost t: Tree, ghost r: Edge)
      requires Open(root, End, middle, edge, header) && middle.Branch? && last == Last(edge, header)
      requires Above(InOrder(middle), k)
      modifies this`root, EdgeNodes(edge), Nodes(middle), header
      ensures Open(root, End, t, r, header) && t.Branch? && right == Last(r, header)
      ensures WholeOrder(End, t, r) == WholeOrder(End, middle, edge)
      ensures Nodes(t) + EdgeNodes(r) == Nodes(middle) + EdgeNodes(edge)
      ensures var z := ZigLeftShape(middle, k);
              && (stop <==> z.left.Nil?)
              && if stop then t == z && r == edge else t == z.left && r == Link(edge, z.node, z.right)
      ensures stop ==> t.left.Nil?
      ensures !stop ==> |InOrder(t)| < |InOrder(middle)|
    {
      hide Apart;
      stop, right, t, r := false, last, middle, edge;
      var tmp := root.left;
      if tmp == null {
        stop := true;
        return;
      }
      RotationKeeps(t.left.left, t.left.node, t.left.right, t.node, t.right);
      assert t.left.node in InOrder(t.left) && t.left.node in InOrder(t);
      RotateRight(tmp, End, t.left.left, t.left.node, t.left.right, t.node, t.right, r, header);
      t := Branch(t.left.left, t.left.node, Branch(t.left.right, t.node, t.right));
      if root.left == null {
        stop := true;
        return;
      }
      LinkLeftKeeps(End, t, r);
      right := LinkLeft(right, End, t, r, header);
      r, t := Link(r, t.node, t.right), t.left;
    }

    // One turn of the loop of name_SPLAY_MINMAX towards the maximum (tree.h:259-268)
    method MaxTurn(ghost k: int, last: Node, ghost middle: Tree, ghost edge: Edge, ghost header: Node)
      returns (stop: bool, left: Node, ghost t: Tree, ghost l: Edge)
      requires Open(root, edge, middle, End, header) && middle.Branch? && last == Last(edge, header)
      requires Below(InOrder(middle), k)
      modifies this`root, EdgeNodes(edge), Nodes(middle), header
      ensures Open(root, l, t, End, header) && t.Branch? && left == Last(l, header)
      ensures WholeOrder(l, t, End) == WholeOrder(edge, middle, End)
      ensures Nodes(t) + EdgeNodes(l) == Nodes(middle) + EdgeNodes(edge)
      ensures var z := ZigRightShape(middle, k);
              && (stop <==> z.right.Nil?)
              && if stop then t == z && l == edge else t == z.right && l == Link(edge, z.node, z.left)
      ensures stop ==> t.right.Nil?
      ensures !stop ==> |InOrder(t)| < |InOrder(middle)|
    {
      hide Apart;
      stop, left, t, l := false, last, middle, edge;
      var tmp := root.right;
      if tmp == null {
        stop := true;
        return;
      }
      RotationKeeps(t.left, t.node, t.right.left, t.right.node, t.right.right);
      assert t.right.node in InOrder(t.right) && t.right.node in InOrder(t);
      RotateLeft(tmp, l, t.left, t.node, t.right.left, t.right.node, t.right.right, End, header);
      t := Branch(Branch(t.left, t.node, t.right.left), t.right.node, t.right.right);
      if root.right == null {
        stop := true;
        return;
      }
      LinkRightKeeps(l, t, End);
      left := LinkRight(left, l, t, End, header);
      l, t := Link(l, t.node, t.left), t.right;
    }

    // The loop of name_SPLAY_MINMAX (tree.h:248-269)
    method TakeEndApart(comp: int, ghost k: int, node: Node, ghost whole: Tree)
      returns (left: Node, right: Node, ghost l: Edge, ghost t: Tree, ghost r: Edge, ghost turns: nat)
      requires Open(root, End, whole, End, node) && whole.Branch? && comp != 0
      requires if comp < 0 then Above(InOrder(whole), k) else Below(InOrder(whole), k)
      modifies this`root, node, Nodes(whole)
      ensures Open(root, l, t, r, node) && t.Branch? && left == Last(l, node) && right == Last(r, node)
      ensures WholeOrder(l, t, r) == InOrder(whole) && EdgeNodes(l) + Nodes(t) + EdgeNodes(r) == Nodes(whole)
      ensures if comp < 0 then l.End? && t.left.Nil? else r.End? && t.right.Nil?
      ensures Ended(whole, k, l, t, r, turns)
    {
      hide Remains, Ended, Apart, Linked, Sorted, InOrder, ZigLeftShape, ZigRightShape;
      left, right := node, node;
      l, t, r, turns := End, whole, End, 0;
      assert WholeOrder(l, t, r) == InOrder(whole);
      AllRemains(whole, k);
      while true
        invariant Open(root, l, t, r, node) && t.Branch? && left == Last(l, node) && right == Last(r, node)
        invariant WholeOrder(l, t, r) == InOrder(whole) && EdgeNodes(l) + Nodes(t) + EdgeNodes(r) == Nodes(whole)
        invariant if comp < 0 then l.End? else r.End?
        invariant Remains(whole, k, l, t, r, turns)
        decreases |InOrder(t)|
      {
        var stop := false;
        if comp < 0 {
          BeyondLeft(t, r, k);
          TurnLeftRemains(whole, k, l, t, r, turns);
          stop, right, t, r := MinTurn(k, right, t, r, node);
        } else if comp > 0 {
          BeyondRight(l, t, k);
          TurnRightRemains(whole, k, l, t, r, turns);
          stop, left, t, l := MaxTurn(k, left, t, l, node);
        }
        turns := turns + 1;
        if stop {
          break;
        }
      }
    }

    // name_SPLAY_MINMAX (tree.h:240-271); it is only called with -1 and 1
    method SplayMinMax(comp: int) returns (ghost turns: nat)
      requires Valid() && root != null && comp != 0
      modifies this, Nodes(shape)
      ensures Valid() && InOrder(shape) == old(InOrder(shape)) && Nodes(shape) == old(Nodes(shape))
      ensures root == if comp < 0 then First(InOrder(shape)) else Final(InOrder(shape))
      ensures var k := EndKey(old(shape), comp);
              shape == Splayed(old(shape), k) && turns == SplayTurns(old(shape), k)
    {
      SortedDistinct(shape);
      assert allocated(Nodes(shape));
      var node := new Node(0);
      ghost var l, t, r;
      var left, right;
      left, right, l, t, r, turns := TakeEndApart(comp, EndKey(shape, comp), node, shape);
      Assemble(node, left, right, l, t, r);
      RootAtEnd(shape);
    }

    // SPLAY_MIN and SPLAY_MAX (tree.h:147-152, 280-283)
    method MinMax(val: int) returns (r: Node?, ghost turns: nat)
      requires Valid() && val != 0
      modifies this, Nodes(shape)
      ensures Valid() && InOrder(shape) == old(InOrder(shape)) && Nodes(shape) == old(Nodes(shape))
      ensures r == if val < 0 then First(InOrder(shape)) else Final(InOrder(shape))
      ensures if val < 0 then HasLeastKey(shape, r) else HasGreatestKey(shape, r)
      ensures shape == Served(old(shape), Extreme(val)) && turns == ServedTurns(old(shape), Extreme(val))
    {
      EndKeys(shape);
      if root == null {
        return null, 0;
      }
      turns := SplayMinMax(val);
      EndKeys(shape);
      return root, turns;
    }

    // SPLAY_FOREACH (tree.h:285-288), collecting the nodes it visits
    method Foreach() returns (visited: seq<Node>, ghost turns: nat, ghost steps: nat)
      requires Valid()
      modifies this, Nodes(shape)
      ensures Valid() && visited == InOrder(shape) == old(InOrder(shape))
      ensures VisitsAll(visited, Nodes(shape))
      ensures steps <= 2 * turns && Pow2(turns) <= Power(|visited| + 1, 4 * |visited| + 3)
    {
      hide Linked, InOrder, Sorted, Charged, Size, Pow2, Power, Nodes;
      hide HasNextKey, HasLeastKey, HasGreatestKey, VisitsAll;
      visited := [];
      var x;
      ghost var start, s := shape, InOrder(shape);
      x, turns := MinMax(-1);
      steps := 0;
      ChargedStart(start, -1, x);
      while x != null
        invariant Valid() && InOrder(shape) == s && Nodes(shape) == old(Nodes(shape))
        invariant visited <= s && x == First(s[|visited|..])
        invariant Charged(start, shape, x, turns, steps, Size(start), 3 * |visited| + 3)
        decreases |s| - |visited|
      {
        ghost var k := |visited|;
        assert s[k] == x;
        InOrderNodes(shape, x);
        ChargedNext(start, shape, x, turns, steps, Size(start), 3 * k + 3);
        visited := visited + [x];
        ghost var more, walk;
        x, more, walk := Next(x);
        turns, steps := turns + more, steps + walk;
        NextAt(s, k, x);
      }
      VisitedAll(shape);
      ChargedEnd(start, shape, turns, steps, |visited|);
    }
  }
}
