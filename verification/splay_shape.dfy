/**
 Shapes of splay trees, and of the two side trees that the top-down splay loop of tree.h
 grows while it takes the tree apart.
 */
module SplayShape {
  import opened Sequences

  /** An element with its SPLAY_ENTRY fields. */
  class Node {
    const key: int
    var left: Node?
    var right: Node?

    constructor (key: int)
      ensures this.key == key && left == null && right == null
    {
      this.key := key;
      left, right := null, null;
    }
  }

  datatype Tree = Nil | Branch(left: Tree, node: Node, right: Tree)

  /** The open edge of a side tree: its last node, the subtree below that node on the closed
      side, and the edge above.  The right edge of the left tree has its hole at the right. */
  datatype Edge = End | Link(up: Edge, node: Node, side: Tree)

  function Root(t: Tree): Node? {
    if t.Nil? then null else t.node
  }

  function InOrder(t: Tree): seq<Node> {
    match t
    case Nil => []
    case Branch(l, n, r) => InOrder(l) + [n] + InOrder(r)
  }

  ghost function Nodes(t: Tree): set<Node> {
    match t
    case Nil => {}
    case Branch(l, n, r) => Nodes(l) + {n} + Nodes(r)
  }

  ghost function EdgeNodes(e: Edge): set<Node> {
    match e
    case End => {}
    case Link(up, n, s) => EdgeNodes(up) + {n} + Nodes(s)
  }

  /** Where the next subtree is linked: the last node of the edge, or the loop's header node. */
  ghost function Last(e: Edge, header: Node): (n: Node)
    ensures n in EdgeNodes(e) + {header}
  {
    if e.End? then header else e.node
  }

  /** The left tree with `t` in its hole. */
  function CloseLeft(e: Edge, t: Tree): Tree
    decreases e
  {
    match e
    case End => t
    case Link(up, n, s) => CloseLeft(up, Branch(s, n, t))
  }

  /** The right tree with `t` in its hole. */
  function CloseRight(e: Edge, t: Tree): Tree
    decreases e
  {
    match e
    case End => t
    case Link(up, n, s) => CloseRight(up, Branch(t, n, s))
  }

  function LeftOrder(e: Edge): seq<Node> {
    match e
    case End => []
    case Link(up, n, s) => LeftOrder(up) + InOrder(s) + [n]
  }

  function RightOrder(e: Edge): seq<Node> {
    match e
    case End => []
    case Link(up, n, s) => [n] + InOrder(s) + RightOrder(up)
  }

  /** The in-order sequence of the whole tree while it is taken apart. */
  function WholeOrder(l: Edge, t: Tree, r: Edge): seq<Node> {
    LeftOrder(l) + InOrder(t) + RightOrder(r)
  }

  // ----- Each node occurs once -----

  ghost predicate Distinct(t: Tree) {
    match t
    case Nil => true
    case Branch(l, n, r) =>
      n !in Nodes(l) && n !in Nodes(r) && Nodes(l) !! Nodes(r) && Distinct(l) && Distinct(r)
  }

  ghost predicate DistinctEdge(e: Edge) {
    match e
    case End => true
    case Link(up, n, s) =>
      n !in EdgeNodes(up) && n !in Nodes(s) && EdgeNodes(up) !! Nodes(s) && DistinctEdge(up) && Distinct(s)
  }

  ghost predicate Apart(l: Edge, t: Tree, r: Edge, header: Node) {
    && DistinctEdge(l) && Distinct(t) && DistinctEdge(r)
    && EdgeNodes(l) !! Nodes(t) && EdgeNodes(l) !! EdgeNodes(r) && Nodes(t) !! EdgeNodes(r)
    && header !in EdgeNodes(l) && header !in Nodes(t) && header !in EdgeNodes(r)
  }

  // ----- Order -----

  ghost predicate Sorted(s: seq<Node>) {
    forall i, j :: 0 <= i < j < |s| ==> s[i].key < s[j].key
  }

  ghost predicate Below(s: seq<Node>, k: int) {
    forall n | n in s :: n.key < k
  }

  ghost predicate Above(s: seq<Node>, k: int) {
    forall n | n in s :: k < n.key
  }

  /** What splaying by `k` achieves: the root separates the smaller from the larger keys, so it
      holds `k` itself if any node does, and else a neighbour of `k` in the order. */
  ghost predicate Separates(t: Tree, k: int) {
    t.Branch? && Below(InOrder(t.left), k) && Above(InOrder(t.right), k)
  }

  lemma {:induction false} InOrderNodes(t: Tree, n: Node)
    ensures n in InOrder(t) <==> n in Nodes(t)
  {
    if t.Branch? {
      InOrderNodes(t.left, n);
      InOrderNodes(t.right, n);
    }
  }

  lemma SortedParts(a: seq<Node>, b: seq<Node>, c: seq<Node>)
    requires Sorted(a + b + c)
    ensures Sorted(a) && Sorted(b) && Sorted(c)
    ensures forall x, y | x in a && y in b :: x.key < y.key
    ensures forall x, y | x in b && y in c :: x.key < y.key
    ensures forall x, y | x in a && y in c :: x.key < y.key
  {
    var s := a + b + c;
    assert forall i | 0 <= i < |a| :: s[i] == a[i];
    assert forall i | 0 <= i < |b| :: s[|a| + i] == b[i];
    assert forall i | 0 <= i < |c| :: s[|a| + |b| + i] == c[i];
  }

  lemma {:induction false} CloseLeftOrder(e: Edge, t: Tree)
    ensures InOrder(CloseLeft(e, t)) == LeftOrder(e) + InOrder(t)
    ensures Nodes(CloseLeft(e, t)) == EdgeNodes(e) + Nodes(t)
    decreases e
  {
    if e.Link? {
      CloseLeftOrder(e.up, Branch(e.side, e.node, t));
      Regroup(LeftOrder(e.up), InOrder(e.side), [e.node], InOrder(t), []);
    }
  }

  lemma {:induction false} CloseRightOrder(e: Edge, t: Tree)
    ensures InOrder(CloseRight(e, t)) == InOrder(t) + RightOrder(e)
    ensures Nodes(CloseRight(e, t)) == EdgeNodes(e) + Nodes(t)
    decreases e
  {
    if e.Link? {
      CloseRightOrder(e.up, Branch(t, e.node, e.side));
      Regroup([], InOrder(t), [e.node], InOrder(e.side), RightOrder(e.up));
    }
  }

  /** Closing both side trees over the last middle tree restores the whole sequence. */
  lemma AssembleOrder(l: Edge, t: Tree, r: Edge)
    requires t.Branch?
    ensures InOrder(Branch(CloseLeft(l, t.left), t.node, CloseRight(r, t.right))) == WholeOrder(l, t, r)
    ensures Nodes(Branch(CloseLeft(l, t.left), t.node, CloseRight(r, t.right)))
        == EdgeNodes(l) + Nodes(t) + EdgeNodes(r)
  {
    CloseLeftOrder(l, t.left);
    CloseRightOrder(r, t.right);
    Regroup(LeftOrder(l), InOrder(t.left), [t.node], InOrder(t.right), RightOrder(r));
  }

  lemma AssembleSeparates(l: Edge, t: Tree, r: Edge, k: int)
    requires t.Branch? && Sorted(WholeOrder(l, t, r))
    requires Below(LeftOrder(l), k) && Above(RightOrder(r), k)
    requires t.node.key == k || Separates(t, k)
    ensures Separates(Branch(CloseLeft(l, t.left), t.node, CloseRight(r, t.right)), k)
  {
    SortedParts(LeftOrder(l), InOrder(t), RightOrder(r));
    SortedParts(InOrder(t.left), [t.node], InOrder(t.right));
    assert t.node in [t.node];
    CloseLeftOrder(l, t.left);
    CloseRightOrder(r, t.right);
  }

  /** SPLAY_ROTATE_RIGHT and SPLAY_ROTATE_LEFT move no node in the sequence. */
  lemma RotationKeeps(a: Tree, x: Node, b: Tree, y: Node, c: Tree)
    ensures var l, r := Branch(Branch(a, x, b), y, c), Branch(a, x, Branch(b, y, c));
            InOrder(l) == InOrder(r) && Nodes(l) == Nodes(r) && (Distinct(l) <==> Distinct(r))
  {
    var l, r := Branch(Branch(a, x, b), y, c), Branch(a, x, Branch(b, y, c));
    assert InOrder(l.left) == InOrder(a) + [x] + InOrder(b);
    assert InOrder(r.right) == InOrder(b) + [y] + InOrder(c);
    assert Nodes(l.left) == Nodes(a) + {x} + Nodes(b);
    assert Nodes(r.right) == Nodes(b) + {y} + Nodes(c);
  }

  /** The pieces of a rotated subtree. */
  lemma RotationDistinct(a: Tree, x: Node, b: Tree, y: Node, c: Tree)
    requires Distinct(Branch(Branch(a, x, b), y, c))
    ensures x != y && x !in Nodes(a) && x !in Nodes(b) && x !in Nodes(c)
    ensures y !in Nodes(a) && y !in Nodes(b) && y !in Nodes(c)
    ensures Nodes(Branch(Branch(a, x, b), y, c)) == Nodes(a) + {x} + Nodes(b) + {y} + Nodes(c)
  {
    assert Distinct(Branch(a, x, b));
    assert x in Nodes(Branch(a, x, b));
  }

  lemma ApartSame(l: Edge, t: Tree, u: Tree, r: Edge, header: Node)
    requires Nodes(t) == Nodes(u) && (Distinct(t) <==> Distinct(u))
    ensures Apart(l, t, r, header) <==> Apart(l, u, r, header)
  {
  }

  /** The two nodes a rotation writes to are in none of the subtrees around them. */
  lemma RotationApart(l: Edge, a: Tree, x: Node, b: Tree, y: Node, c: Tree, r: Edge, header: Node)
    ensures Apart(l, Branch(Branch(a, x, b), y, c), r, header) <==> Apart(l, Branch(a, x, Branch(b, y, c)), r, header)
    ensures Apart(l, Branch(Branch(a, x, b), y, c), r, header) ==>
              && x != y && x !in Nodes(a) && x !in Nodes(b) && x !in Nodes(c)
              && y !in Nodes(a) && y !in Nodes(b) && y !in Nodes(c)
              && x !in EdgeNodes(l) && x !in EdgeNodes(r) && y !in EdgeNodes(l) && y !in EdgeNodes(r)
              && header != x && header != y
  {
    var t, u := Branch(Branch(a, x, b), y, c), Branch(a, x, Branch(b, y, c));
    RotationKeeps(a, x, b, y, c);
    ApartSame(l, t, u, r, header);
    if Apart(l, t, r, header) {
      RotationDistinct(a, x, b, y, c);
      InsideApart(l, t, r, header, x);
      InsideApart(l, t, r, header, y);
    }
  }

  lemma InsideApart(l: Edge, t: Tree, r: Edge, header: Node, n: Node)
    requires Apart(l, t, r, header) && n in Nodes(t)
    ensures n !in EdgeNodes(l) && n !in EdgeNodes(r) && n != header
  {
  }

  /** SPLAY_LINKLEFT: the root and its right subtree go to the right tree. */
  lemma LinkLeftKeeps(l: Edge, t: Tree, r: Edge)
    requires t.Branch?
    ensures WholeOrder(l, t.left, Link(r, t.node, t.right)) == WholeOrder(l, t, r)
  {
    Regroup(LeftOrder(l), InOrder(t.left), [t.node], InOrder(t.right), RightOrder(r));
    assert RightOrder(Link(r, t.node, t.right)) == [t.node] + InOrder(t.right) + RightOrder(r);
  }

  /** Handing the root over to a side tree writes to the last node of that side tree only. */
  lemma LinkApart(l: Edge, t: Tree, r: Edge, header: Node)
    requires Apart(l, t, r, header) && t.Branch?
    ensures Apart(l, t.left, Link(r, t.node, t.right), header)
    ensures Apart(Link(l, t.node, t.left), t.right, r, header)
    ensures var n := Last(r, header);
            n !in Nodes(t.left) && n !in Nodes(t.right) && n != t.node && n !in EdgeNodes(l)
                && (r.Link? ==> n !in Nodes(r.side) && n !in EdgeNodes(r.up))
    ensures var n := Last(l, header);
            n !in Nodes(t.left) && n !in Nodes(t.right) && n != t.node && n !in EdgeNodes(r)
                && (l.Link? ==> n !in Nodes(l.side) && n !in EdgeNodes(l.up))
    ensures r.Link? ==> r.node != Last(r.up, header) && r.node != header
    ensures l.Link? ==> l.node != Last(l.up, header) && l.node != header
  {
  }

  /** SPLAY_LINKRIGHT: the root and its left subtree go to the left tree. */
  lemma LinkRightKeeps(l: Edge, t: Tree, r: Edge)
    requires t.Branch?
    ensures WholeOrder(Link(l, t.node, t.left), t.right, r) == WholeOrder(l, t, r)
  {
    Regroup(LeftOrder(l), InOrder(t.left), [t.node], InOrder(t.right), RightOrder(r));
  }

  lemma {:induction false} SortedDistinct(t: Tree)
    requires Sorted(InOrder(t))
    ensures Distinct(t)
  {
    match t
    case Nil =>
    case Branch(l, n, r) =>
      SortedParts(InOrder(l), [n], InOrder(r));
      assert n in [n];
      SortedDistinct(l);
      SortedDistinct(r);
      forall m | m in Nodes(l)
        ensures m.key < n.key
      {
        InOrderNodes(l, m);
      }
      forall m | m in Nodes(r)
        ensures n.key < m.key
      {
        InOrderNodes(r, m);
      }
  }

  /** After splaying, the key is in the tree only if it is at the root. */
  lemma KeyAtRoot(t: Tree, k: int)
    requires Separates(t, k)
    ensures t.node in Nodes(t)
    ensures (exists n :: n in Nodes(t) && n.key == k) <==> t.node.key == k
  {
    forall n | n in Nodes(t) && n != t.node
      ensures n.key != k
    {
      InOrderNodes(t.left, n);
      InOrderNodes(t.right, n);
    }
  }

  lemma SortedDrop(a: seq<Node>, n: Node, b: seq<Node>)
    requires Sorted(a + [n] + b)
    ensures Sorted(a + b)
  {
    var s := a + [n] + b;
    forall i, j | 0 <= i < j < |a + b|
      ensures (a + b)[i].key < (a + b)[j].key
    {
      var i', j' := if i < |a| then i else i + 1, if j < |a| then j else j + 1;
      assert s[i'] == (a + b)[i] && s[j'] == (a + b)[j];
    }
  }

  lemma RootHasKey(t: Tree, n: Node)
    requires Separates(t, n.key) && n in Nodes(t)
    ensures t.node == n
  {
    InOrderNodes(t.left, n);
    InOrderNodes(t.right, n);
  }

  /** `s'` is `s` without the node of key `k`. */
  ghost predicate Removes(s: seq<Node>, s': seq<Node>, k: int) {
    exists i :: 0 <= i < |s| && s[i].key == k && s' == s[..i] + s[i + 1..]
  }

  lemma RemoveOrder(t: Tree, k: int)
    requires t.Branch? && t.node.key == k && Sorted(InOrder(t))
    ensures Removes(InOrder(t), InOrder(t.left) + InOrder(t.right), k)
    ensures Sorted(InOrder(t.left) + InOrder(t.right)) && Sorted(InOrder(t.left)) && Sorted(InOrder(t.right))
    ensures Below(InOrder(t.left), k) && Above(InOrder(t.right), k)
    ensures t.left.Nil? ==> InOrder(t.left) + InOrder(t.right) == InOrder(t.right)
  {
    var l, r := InOrder(t.left), InOrder(t.right);
    SortedParts(l, [t.node], r);
    assert t.node in [t.node];
    SortedDrop(l, t.node, r);
    var s, i := InOrder(t), |l|;
    assert s[i] == t.node && s[..i] == l && s[i + 1..] == r;
  }

  lemma RightRoot(t: Tree)
    requires t.Branch? && t.right.Branch?
    ensures t.right.node in InOrder(t.right) && t.right.node in InOrder(t)
  {
  }

  /** Splaying the smaller keys by `k` brings their maximum to the root, so its right side is free for the larger
      keys. */
  lemma ReSplayed(t: Tree, rest: Tree, k: int)
    requires Separates(t, k) && Below(InOrder(t), k) && Nodes(t) !! Nodes(rest) && Distinct(t)
    ensures t.right.Nil? && t.node !in Nodes(t.left) && t.node !in Nodes(rest)
    ensures InOrder(Branch(t.left, t.node, rest)) == InOrder(t) + InOrder(rest)
  {
    if t.right.Branch? {
      RightRoot(t);
    }
    assert InOrder(t) == InOrder(t.left) + [t.node];
  }

  /** The new element becomes the root, between the smaller and the larger keys. */
  lemma InsertKeeps(t: Tree, e: Node)
    requires Separates(t, e.key) && Sorted(InOrder(t)) && t.node.key != e.key
    ensures e.key < t.node.key ==> SortedWith(t, e, Branch(t.left, e, Branch(Nil, t.node, t.right)))
    ensures e.key > t.node.key ==> SortedWith(t, e, Branch(Branch(t.left, t.node, Nil), e, t.right))
    ensures e !in Nodes(t)
  {
    InOrderNodes(t.left, e);
    InOrderNodes(t.right, e);
    if e.key < t.node.key {
      PutBelowKeeps(t, e);
    } else {
      PutAboveKeeps(t, e);
    }
  }

  /** A new element between `a` and `b`. */
  lemma SortedInsert(a: seq<Node>, e: Node, b: seq<Node>)
    requires Sorted(a + b) && Below(a, e.key) && (b != [] ==> e.key < b[0].key)
    ensures Sorted(a + [e] + b)
  {
    var s, u := a + b, a + [e] + b;
    assert b != [] ==> s[|a|] == b[0];
    forall i, j | 0 <= i < j < |u|
      ensures u[i].key < u[j].key
    {
      assert i < |a| ==> u[i] == s[i] == a[i] && a[i] in a;
      assert i > |a| ==> u[i] == s[i - 1];
      assert j < |a| ==> u[j] == s[j];
      assert j > |a| ==> u[j] == s[j - 1];
    }
  }

  lemma PutBelowKeeps(t: Tree, e: Node)
    requires Separates(t, e.key) && Sorted(InOrder(t)) && e.key < t.node.key
    ensures SortedWith(t, e, Branch(t.left, e, Branch(Nil, t.node, t.right)))
  {
    hide Sorted;
    var l, n, r := InOrder(t.left), t.node, InOrder(t.right);
    var rest := Branch(Nil, n, t.right);
    assert InOrder(rest) == [] + [n] + r == [n] + r;
    assert Nodes(rest) == {n} + Nodes(t.right);
    assert InOrder(t) == l + [n] + r;
    AssocSeq(l, [n], r);
    SortedInsert(l, e, [n] + r);
    assert InOrder(Branch(t.left, e, rest)) == l + [e] + ([n] + r);
  }

  lemma PutAboveKeeps(t: Tree, e: Node)
    requires Separates(t, e.key) && Sorted(InOrder(t)) && e.key > t.node.key
    ensures SortedWith(t, e, Branch(Branch(t.left, t.node, Nil), e, t.right))
  {
    var l, n, r := InOrder(t.left), t.node, InOrder(t.right);
    SortedParts(l, [n], r);
    assert n in [n];
    assert InOrder(Branch(t.left, n, Nil)) == l + [n];
    assert r != [] ==> r[0] in r;
    forall x | x in l + [n]
      ensures x.key < e.key
    {
    }
    SortedInsert(l + [n], e, r);
    var u := Branch(Branch(t.left, n, Nil), e, t.right);
    assert InOrder(u) == l + [n] + [e] + r;
    assert Nodes(u.left) == Nodes(t.left) + {n};
  }

  ghost predicate SortedWith(t: Tree, e: Node, u: Tree) {
    Sorted(InOrder(u)) && Nodes(u) == Nodes(t) + {e}
  }

  // ----- Ends of a sequence, null when it is empty -----

  function First(s: seq<Node>): Node? {
    if s == [] then null else s[0]
  }

  function Final(s: seq<Node>): Node? {
    if s == [] then null else s[|s| - 1]
  }

  /** No node comes twice, so what follows it is fixed. */
  lemma NextAt(s: seq<Node>, k: nat, x: Node?)
    requires Sorted(s) && k < |s| && exists i :: 0 <= i < |s| && s[i] == s[k] && x == First(s[i + 1..])
    ensures x == First(s[k + 1..])
  {
    var i :| 0 <= i < |s| && s[i] == s[k] && x == First(s[i + 1..]);
    assert i == k;
  }

  lemma RootAtEnd(t: Tree)
    requires t.Branch?
    ensures t.left.Nil? ==> t.node == First(InOrder(t))
    ensures t.right.Nil? ==> t.node == Final(InOrder(t))
  {
  }

  // ----- The same in terms of the keys -----

  /** `n` is the node with the least key, null if there is none. */
  ghost predicate HasLeastKey(t: Tree, n: Node?) {
    if n == null then Nodes(t) == {} else n in Nodes(t) && forall m | m in Nodes(t) :: n.key <= m.key
  }

  ghost predicate HasGreatestKey(t: Tree, n: Node?) {
    if n == null then Nodes(t) == {} else n in Nodes(t) && forall m | m in Nodes(t) :: m.key <= n.key
  }

  /** `n` is the node with the least key above `k`, null if there is none. */
  ghost predicate HasNextKey(t: Tree, k: int, n: Node?) {
    if n == null then forall m | m in Nodes(t) :: m.key <= k
    else n in Nodes(t) && k < n.key && forall m | m in Nodes(t) :: m.key <= k || n.key <= m.key
  }

  lemma PlaceOf(t: Tree, n: Node) returns (i: nat)
    requires n in Nodes(t)
    ensures i < |InOrder(t)| && InOrder(t)[i] == n
  {
    InOrderNodes(t, n);
    i :| 0 <= i < |InOrder(t)| && InOrder(t)[i] == n;
  }

  lemma NodeAt(t: Tree, i: nat)
    requires i < |InOrder(t)|
    ensures InOrder(t)[i] in Nodes(t)
  {
    InOrderNodes(t, InOrder(t)[i]);
  }

  lemma EndKeys(t: Tree)
    requires Sorted(InOrder(t))
    ensures HasLeastKey(t, First(InOrder(t))) && HasGreatestKey(t, Final(InOrder(t)))
  {
    hide InOrder, Nodes;
    var s := InOrder(t);
    if s == [] {
      assert Nodes(t) == {} by {
        if n :| n in Nodes(t) {
          var i := PlaceOf(t, n);
          assert false;
        }
      }
    } else {
      NodeAt(t, 0);
      NodeAt(t, |s| - 1);
      forall n | n in Nodes(t)
        ensures s[0].key <= n.key <= s[|s| - 1].key
      {
        var i := PlaceOf(t, n);
      }
    }
  }

  lemma NextKey(t: Tree, i: nat)
    requires Sorted(InOrder(t)) && i < |InOrder(t)|
    ensures HasNextKey(t, InOrder(t)[i].key, First(InOrder(t)[i + 1..]))
  {
    hide InOrder, Nodes;
    var s := InOrder(t);
    if i + 1 < |s| {
      NodeAt(t, i + 1);
    }
    forall n | n in Nodes(t)
      ensures n.key <= s[i].key || (i + 1 < |s| && s[i + 1].key <= n.key)
    {
      var j := PlaceOf(t, n);
    }
  }

  lemma FollowerKey(t: Tree, n: Node, next: Node?)
    requires Sorted(InOrder(t))
    requires exists i :: 0 <= i < |InOrder(t)| && InOrder(t)[i] == n && next == First(InOrder(t)[i + 1..])
    ensures HasNextKey(t, n.key, next)
  {
    var i :| 0 <= i < |InOrder(t)| && InOrder(t)[i] == n && next == First(InOrder(t)[i + 1..]);
    NextKey(t, i);
  }

  /** The keys on both sides of the root are on the same sides of `k`. */
  ghost predicate RootDivides(t: Tree, k: int) {
    t.Branch? && t.node in Nodes(t)
    && forall n | n in Nodes(t) ::
         n == t.node || (n.key < t.node.key && n.key < k) || (t.node.key < n.key && k < n.key)
  }

  lemma SeparatesKeys(t: Tree, k: int)
    requires Separates(t, k) && Sorted(InOrder(t))
    ensures RootDivides(t, k)
  {
    SortedParts(InOrder(t.left), [t.node], InOrder(t.right));
    assert t.node in [t.node];
    hide InOrder, Sorted;
    forall n | n in Nodes(t) && n != t.node
      ensures (n.key < t.node.key && n.key < k) || (t.node.key < n.key && k < n.key)
    {
      InOrderNodes(t.left, n);
      InOrderNodes(t.right, n);
    }
  }

  /** Every node once, in the order of the keys. */
  ghost predicate VisitsAll(visited: seq<Node>, nodes: set<Node>) {
    && (forall n | n in visited :: n in nodes) && (forall n | n in nodes :: n in visited)
    && forall i, j | 0 <= i < j < |visited| :: visited[i].key < visited[j].key
  }

  lemma VisitedAll(t: Tree)
    requires Sorted(InOrder(t))
    ensures VisitsAll(InOrder(t), Nodes(t))
  {
    forall n | n in InOrder(t)
      ensures n in Nodes(t)
    {
      InOrderNodes(t, n);
    }
    forall n | n in Nodes(t)
      ensures n in InOrder(t)
    {
      InOrderNodes(t, n);
    }
  }
}
