/**
 The in-order sequence around a hole, and searching by key.
 */
module RbOrder {
  import opened RbShape
  import opened Sequences

  /** The nodes left of the hole of `p`, in order. */
  function Before(p: Path): seq<Node> {
    match p
    case Top => []
    case Step(up, isLeft, n, _, s) => if isLeft then Before(up) else Before(up) + InOrder(s) + [n]
  }

  /** The nodes right of the hole of `p`, in order. */
  function After(p: Path): seq<Node> {
    match p
    case Top => []
    case Step(up, isLeft, n, _, s) => if isLeft then [n] + InOrder(s) + After(up) else After(up)
  }

  /** Plugging puts the subtree's sequence between the nodes left and right of the hole. */
  lemma {:induction false} PlugSplit(p: Path, t: Tree)
    ensures InOrder(Plug(p, t)) == Before(p) + InOrder(t) + After(p)
    decreases p
  {
    match p
    case Top =>
    case Step(up, isLeft, n, red, s) =>
      PlugSplit(up, Join(isLeft, n, red, t, s));
      if isLeft {
        Regroup(Before(up), InOrder(t), [n], InOrder(s), After(up));
      } else {
        Regroup(Before(up), InOrder(s), [n], InOrder(t), After(up));
      }
  }

  /** A node with key `k` can only be in the hole of `p`. */
  ghost predicate Brackets(p: Path, k: int) {
    (forall n | n in Before(p) :: n.key < k) && (forall n | n in After(p) :: k < n.key)
  }

  lemma SortedParts(a: seq<Node>, b: seq<Node>, c: seq<Node>)
    requires Sorted(a + b + c)
    ensures Sorted(a) && Sorted(b) && Sorted(c)
    ensures forall x, y | x in a && y in b :: x.key < y.key
    ensures forall x, y | x in b && y in c :: x.key < y.key
    ensures forall x, y | x in a && y in c :: x.key < y.key
  {
    var s := a + b + c;
    assert forall i | 0 <= i < |a| :: s[i] == a[i];
    assert forall i | 0 <= i < |b| :: s[|a| + i] == b[i];
    assert forall i | 0 <= i < |c| :: s[|a| + |b| + i] == c[i];
  }

  lemma SortedJoin(a: seq<Node>, b: seq<Node>, c: seq<Node>)
    requires Sorted(a) && Sorted(b) && Sorted(c)
    requires forall x, y | x in a && y in b :: x.key < y.key
    requires forall x, y | x in b && y in c :: x.key < y.key
    requires forall x, y | x in a && y in c :: x.key < y.key
    ensures Sorted(a + b + c)
  {
    var s := a + b + c;
    forall i, j | 0 <= i < j < |s|
      ensures s[i].key < s[j].key
    {
      assert s[i] == if i < |a| then a[i] else if i < |a| + |b| then b[i - |a|] else c[i - |a| - |b|];
      assert s[j] == if j < |a| then a[j] else if j < |a| + |b| then b[j - |a|] else c[j - |a| - |b|];
    }
  }

  /** One comparison of a search by key. */
  lemma Descend(p: Path, t: Tree, k: int)
    requires t.Branch? && Sorted(InOrder(Plug(p, t))) && Brackets(p, k)
    ensures k < t.node.key ==> Brackets(Step(p, true, t.node, t.red, t.right), k)
    ensures k > t.node.key ==> Brackets(Step(p, false, t.node, t.red, t.left), k)
  {
    var l, n, r := InOrder(t.left), t.node, InOrder(t.right);
    PlugSplit(p, t);
    SortedParts(Before(p), InOrder(t), After(p));
    SortedParts(l, [n], r);
    assert n in [n];
    if k < n.key {
      AllAbove([n] + r, After(p), k);
    } else if k > n.key {
      AllBelow(Before(p) + l, [n], k);
    }
  }

  lemma AllAbove(a: seq<Node>, b: seq<Node>, k: int)
    requires (forall x | x in a :: k < x.key) && (forall x | x in b :: k < x.key)
    ensures forall x | x in a + b :: k < x.key
  {
  }

  lemma AllBelow(a: seq<Node>, b: seq<Node>, k: int)
    requires (forall x | x in a :: x.key < k) && (forall x | x in b :: x.key < k)
    ensures forall x | x in a + b :: x.key < k
  {
  }

  lemma InPlug(p: Path, t: Tree, n: Node)
    ensures n in Nodes(Plug(p, t)) <==> n in Before(p) || n in InOrder(t) || n in After(p)
  {
    PlugSplit(p, t);
    InOrderNodes(Plug(p, t), n);
  }

  /** An unsuccessful search: no node has the key, and a node with that key fits in the hole. */
  lemma NotFound(p: Path, e: Node)
    requires Sorted(InOrder(Plug(p, Nil))) && Brackets(p, e.key)
    ensures forall n | n in Nodes(Plug(p, Nil)) :: n.key != e.key
    ensures Sorted(InOrder(Plug(p, Branch(Nil, e, true, Nil))))
    ensures e !in PathNodes(p)
  {
    forall n | n in Nodes(Plug(p, Nil))
      ensures n.key != e.key
    {
      InPlug(p, Nil, n);
    }
    PlugNodes(p, Nil);
    PlugSplit(p, Nil);
    PlugSplit(p, Branch(Nil, e, true, Nil));
    SortedParts(Before(p), [], After(p));
    SortedJoin(Before(p), [e], After(p));
    assert InOrder(Branch(Nil, e, true, Nil)) == [e];
  }

  /** The position of a node of the tree. */
  lemma {:induction false} FindPath(base: Path, t: Tree, n: Node) returns (p: Path, u: Tree)
    requires n in Nodes(t)
    ensures Plug(p, u) == Plug(base, t) && u.Branch? && u.node == n
    decreases t
  {
    if t.node == n {
      p, u := base, t;
    } else if n in Nodes(t.left) {
      p, u := FindPath(Step(base, true, t.node, t.red, t.right), t.left, n);
    } else {
      p, u := FindPath(Step(base, false, t.node, t.red, t.left), t.right, n);
    }
  }

  /** Taking one node out of a strictly increasing sequence. */
  lemma DropNode(t: Tree, u: Tree, a: seq<Node>, n: Node, b: seq<Node>)
    requires InOrder(t) == a + [n] + b && Sorted(InOrder(t)) && InOrder(u) == a + b
    ensures Sorted(InOrder(u)) && Nodes(u) == Nodes(t) - {n}
  {
    SortedParts(a, [n], b);
    assert n in [n];
    SortedJoin(a, [], b);
    assert a + [] + b == a + b;
    forall m | m in Nodes(t) + Nodes(u)
      ensures m in Nodes(u) <==> m in Nodes(t) && m != n
    {
      InOrderNodes(t, m);
      InOrderNodes(u, m);
    }
  }

  /** The way down along left children only. */
  predicate Leftmost(p: Path) {
    p.Step? ==> p.isLeft && Leftmost(p.up)
  }

  lemma {:induction false} LeftmostBefore(p: Path)
    requires Leftmost(p)
    ensures Before(p) == []
  {
    if p.Step? {
      LeftmostBefore(p.up);
    }
  }

  lemma Middle(a: seq<Node>, l: seq<Node>, m: seq<Node>, r: seq<Node>, c: seq<Node>)
    ensures a + (l + m + r) + c == (a + l) + m + (r + c)
    ensures m == [] ==> a + (l + r) + c == (a + l) + (r + c)
  {
  }

  lemma EmptyLeft(a: seq<Node>, b: seq<Node>, c: seq<Node>, d: seq<Node>)
    requires a == []
    ensures a + (b + c) + d == b + (a + c + d)
    ensures b + ([] + (c + d)) == b + c + d
  {
  }

  /** Splicing out a node with at most one child. */
  lemma SpliceInOrder(p: Path, t: Tree, c: Tree)
    requires t.Branch? && Sorted(InOrder(Plug(p, t)))
    requires (t.left.Nil? && c == t.right) || (t.right.Nil? && c == t.left)
    ensures Sorted(InOrder(Plug(p, c))) && Nodes(Plug(p, c)) == Nodes(Plug(p, t)) - {t.node}
  {
    PlugSplit(p, t);
    PlugSplit(p, c);
    var l, r := InOrder(t.left), InOrder(t.right);
    assert InOrder(c) == l + r;
    Middle(Before(p), l, [t.node], r, After(p));
    Middle(Before(p), l, [], r, After(p));
    DropNode(Plug(p, t), Plug(p, c), Before(p) + l, t.node, r + After(p));
  }

  /** Replacing a node by its successor, the leftmost node of its right subtree (at `down` in it). */
  lemma SuccessorInOrder(p: Path, l: Tree, n: Node, red: bool, down: Path, e: Node, ered: bool, r: Tree)
    requires Leftmost(down)
    requires Sorted(InOrder(Plug(p, Branch(l, n, red, Plug(down, Branch(Nil, e, ered, r))))))
    ensures Sorted(InOrder(Plug(p, Branch(l, e, red, Plug(down, r)))))
    ensures Nodes(Plug(p, Branch(l, e, red, Plug(down, r))))
        == Nodes(Plug(p, Branch(l, n, red, Plug(down, Branch(Nil, e, ered, r))))) - {n}
  {
    hide Before, After, Plug;
    var succ := Branch(Nil, e, ered, r);
    var t, u := Branch(l, n, red, Plug(down, succ)), Branch(l, e, red, Plug(down, r));
    PlugSplit(p, t);
    PlugSplit(p, u);
    PlugSplit(down, succ);
    PlugSplit(down, r);
    LeftmostBefore(down);
    var rest := InOrder(Plug(down, r));
    EmptyLeft(Before(down), [e], InOrder(r), After(down));
    assert InOrder(succ) == [e] + InOrder(r);
    Middle(Before(p), InOrder(l), [n], [e] + rest, After(p));
    Middle(Before(p), InOrder(l), [], [e] + rest, After(p));
    assert InOrder(u) == InOrder(l) + ([] + ([e] + rest)) by { EmptyLeft([], InOrder(l), [e], rest); }
    DropNode(Plug(p, t), Plug(p, u), Before(p) + InOrder(l), n, [e] + rest + After(p));
  }

  lemma AppendOwner(down: Path, base: Path)
    requires base.Step?
    ensures Owner(Append(down, base)) == if down.Top? then base.node else down.node
    ensures down.Step? ==> down.node in PathNodes(down)
  {
  }

  /** The successor is one node of the subtree it is taken from. */
  lemma SuccessorApart(p: Path, l: Tree, n: Node, red: bool, down: Path, u: Tree)
    requires Apart(Append(down, Step(p, false, n, red, l)), u) && u.Branch?
    ensures u.node !in PathNodes(p) && u.node !in Nodes(Branch(l, n, red, Plug(down, u.right)))
    ensures n !in PathNodes(down)
  {
    var base := Step(p, false, n, red, l);
    PlugDistinct(Append(down, base), u);
    PlugAppend(down, base, u);
    PlugDistinct(p, Branch(l, n, red, Plug(down, u)));
    PlugNodes(down, u);
    PlugNodes(down, u.right);
    PlugDistinct(down, u);
  }

  // ----- Ends of a sequence, null when it is empty -----

  function At0(s: seq<Node>): Node? {
    if s == [] then null else s[0]
  }

  function AtLast(s: seq<Node>): Node? {
    if s == [] then null else s[|s| - 1]
  }

  /** What follows a node in the order: its right subtree, then what comes after its place. */
  lemma AfterNode(p: Path, t: Tree)
    requires t.Branch?
    ensures var s := InOrder(Plug(p, t));
            exists i :: 0 <= i < |s| && s[i] == t.node && s[i + 1..] == InOrder(t.right) + After(p)
  {
    PlugSplit(p, t);
    Behind(Before(p), InOrder(t.left), t.node, InOrder(t.right), After(p));
    var s, i := InOrder(Plug(p, t)), |Before(p)| + |InOrder(t.left)|;
    assert 0 <= i < |s| && s[i] == t.node && s[i + 1..] == InOrder(t.right) + After(p);
  }

  lemma Behind(a: seq<Node>, b: seq<Node>, n: Node, c: seq<Node>, d: seq<Node>)
    ensures var s, i := a + (b + [n] + c) + d, |a| + |b|;
            i < |s| && s[i] == n && s[i + 1..] == c + d
  {
    var s, i := a + (b + [n] + c) + d, |a| + |b|;
    assert s[i] == (b + [n] + c)[|b|] == n;
    forall k | 0 <= k < |c| + |d|
      ensures s[i + 1..][k] == (c + d)[k]
    {
    }
  }

  // ----- The same in terms of the keys -----

  /** `n` is the node with the least key, null if there is none. */
  ghost predicate HasLeastKey(t: Tree, n: Node?) {
    if n == null then Nodes(t) == {} else n in Nodes(t) && forall m | m in Nodes(t) :: n.key <= m.key
  }

  ghost predicate HasGreatestKey(t: Tree, n: Node?) {
    if n == null then Nodes(t) == {} else n in Nodes(t) && forall m | m in Nodes(t) :: m.key <= n.key
  }

  /** `n` is the node with the least key above `k`, null if there is none. */
  ghost predicate HasNextKey(t: Tree, k: int, n: Node?) {
    if n == null then forall m | m in Nodes(t) :: m.key <= k
    else n in Nodes(t) && k < n.key && forall m | m in Nodes(t) :: m.key <= k || n.key <= m.key
  }

  lemma PlaceOf(t: Tree, n: Node) returns (i: nat)
    requires n in Nodes(t)
    ensures i < |InOrder(t)| && InOrder(t)[i] == n
  {
    InOrderNodes(t, n);
    i :| 0 <= i < |InOrder(t)| && InOrder(t)[i] == n;
  }

  lemma NodeAt(t: Tree, i: nat)
    requires i < |InOrder(t)|
    ensures InOrder(t)[i] in Nodes(t)
  {
    InOrderNodes(t, InOrder(t)[i]);
  }

  lemma EndKeys(t: Tree)
    requires Sorted(InOrder(t))
    ensures HasLeastKey(t, At0(InOrder(t))) && HasGreatestKey(t, AtLast(InOrder(t)))
  {
    hide InOrder, Nodes;
    var s := InOrder(t);
    if s == [] {
      assert Nodes(t) == {} by {
        if n :| n in Nodes(t) {
          var i := PlaceOf(t, n);
          assert false;
        }
      }
    } else {
      NodeAt(t, 0);
      NodeAt(t, |s| - 1);
      forall n | n in Nodes(t)
        ensures s[0].key <= n.key <= s[|s| - 1].key
      {
        var i := PlaceOf(t, n);
      }
    }
  }

  lemma NextKey(t: Tree, i: nat)
    requires Sorted(InOrder(t)) && i < |InOrder(t)|
    ensures HasNextKey(t, InOrder(t)[i].key, At0(InOrder(t)[i + 1..]))
  {
    hide InOrder, Nodes;
    var s := InOrder(t);
    if i + 1 < |s| {
      NodeAt(t, i + 1);
    }
    forall n | n in Nodes(t)
      ensures n.key <= s[i].key || (i + 1 < |s| && s[i + 1].key <= n.key)
    {
      var j := PlaceOf(t, n);
    }
  }

  lemma FollowerKey(t: Tree, n: Node, next: Node?)
    requires Sorted(InOrder(t))
    requires exists i :: 0 <= i < |InOrder(t)| && InOrder(t)[i] == n && next == At0(InOrder(t)[i + 1..])
    ensures HasNextKey(t, n.key, next)
  {
    var i :| 0 <= i < |InOrder(t)| && InOrder(t)[i] == n && next == At0(InOrder(t)[i + 1..]);
    NextKey(t, i);
  }

  /** Every node once, in the order of the keys. */
  ghost predicate VisitsAll(visited: seq<Node>, nodes: set<Node>) {
    && (forall n | n in visited :: n in nodes) && (forall n | n in nodes :: n in visited)
    && forall i, j | 0 <= i < j < |visited| :: visited[i].key < visited[j].key
  }

  lemma VisitedAll(t: Tree)
    requires Sorted(InOrder(t))
    ensures VisitsAll(InOrder(t), Nodes(t))
  {
    forall n | n in InOrder(t)
      ensures n in Nodes(t)
    {
      InOrderNodes(t, n);
    }
    forall n | n in Nodes(t)
      ensures n in InOrder(t)
    {
      InOrderNodes(t, n);
    }
  }
}
