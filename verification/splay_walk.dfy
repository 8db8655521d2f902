/**
 The walks of SPLAY_NEXT, which goes from the splayed node down to its successor.  They are not turns of the
 splay loop, so the Balance Theorem says nothing about them; they are paid for when the successor is splayed.
 */
module SplayWalk {
  import opened Powers
  import opened Sequences
  import opened SplayBalance
  import opened SplayShape

  /** The nodes met when going left as far as possible. */
  function Spine(t: Tree): nat {
    if t.Nil? then 0 else 1 + Spine(t.left)
  }

  function LeastKey(t: Tree): int
    requires t.Branch?
  {
    if t.left.Nil? then t.node.key else LeastKey(t.left)
  }

  lemma {:induction false} LeastIsFirst(t: Tree)
    requires t.Branch?
    ensures First(InOrder(t)) != null && First(InOrder(t)).key == LeastKey(t)
  {
    if t.left.Branch? {
      LeastIsFirst(t.left);
      assert InOrder(t)[0] == InOrder(t.left)[0];
    }
  }

  lemma LeastIsLeast(t: Tree)
    requires t.Branch? && Sorted(InOrder(t))
    ensures LeastKey(t) <= t.node.key && (t.left.Branch? ==> LeastKey(t) < t.node.key)
    ensures Sorted(InOrder(t.left)) && Sorted(InOrder(t.right))
    ensures t.right.Branch? ==> t.node.key < LeastKey(t.right)
  {
    SortedParts(InOrder(t.left), [t.node], InOrder(t.right));
    assert t.node in [t.node];
    if t.left.Branch? {
      LeastIsFirst(t.left);
      assert InOrder(t.left)[0] in InOrder(t.left);
    }
    if t.right.Branch? {
      LeastIsFirst(t.right);
      assert InOrder(t.right)[0] in InOrder(t.right);
    }
  }

  /** Splaying by the least key goes down two nodes of the left spine in every turn. */
  lemma {:induction false} LeastTurns(t: Tree)
    requires t.Branch? && Sorted(InOrder(t))
    ensures Turns(t, LeastKey(t)) == Spine(t) / 2
  {
    LeastIsLeast(t);
    if t.left.Branch? {
      var k, y := LeastKey(t), t.left;
      LeastIsLeast(y);
      assert k == LeastKey(y);
      if y.left.Branch? {
        assert k == LeastKey(y.left) && ZigLeftShape(t, k).left == y.left;
        LeastIsLeast(y.left);
        LeastTurns(y.left);
      } else {
        assert k == y.node.key && ZigLeftShape(t, k) == t && Turns(y, k) == 0;
        assert Spine(t) == 1 + Spine(y) && Spine(y) == 1 + Spine(y.left) == 1;
      }
    }
  }

  /** The walk from the root to its successor, against the turns of splaying that successor. */
  lemma SuccessorPays(t: Tree)
    requires t.Branch? && t.right.Branch? && Sorted(InOrder(t))
    ensures Spine(t.right) < 2 * Turns(t, LeastKey(t.right))
  {
    LeastIsLeast(t);
    LeastIsLeast(t.right);
    LeastTurns(t.right);
  }

  // ----- The tree stays a search tree -----

  lemma {:induction false} SplitOrder(t: Tree, k: int)
    requires t.Branch?
    ensures InOrder(Joined(Split(t, k))) == InOrder(t)
    decreases t
  {
    hide InOrder;
    ZigOrder(t, k);
    if k < t.node.key {
      var z := ZigLeftShape(t, k);
      if z.left.Branch? {
        SplitOrder(z.left, k);
        JoinedLeft(Split(z.left, k), z);
      }
    } else if k > t.node.key {
      var z := ZigRightShape(t, k);
      if z.right.Branch? {
        SplitOrder(z.right, k);
        JoinedRight(z, Split(z.right, k));
      }
    }
  }

  lemma JoinedLeft(p: Parts, z: Tree)
    requires z.Branch? && InOrder(Joined(p)) == InOrder(z.left)
    ensures InOrder(Branch(p.left, p.node, Branch(p.right, z.node, z.right))) == InOrder(z)
  {
    Regroup(InOrder(p.left), [p.node], InOrder(p.right), [z.node], InOrder(z.right));
    AssocSeq(InOrder(p.left) + [p.node], InOrder(p.right) + [z.node], InOrder(z.right));
    AssocSeq(InOrder(p.left) + [p.node], InOrder(p.right), [z.node]);
  }

  lemma JoinedRight(z: Tree, p: Parts)
    requires z.Branch? && InOrder(Joined(p)) == InOrder(z.right)
    ensures InOrder(Branch(Branch(z.left, z.node, p.left), p.node, p.right)) == InOrder(z)
  {
    AssocSeq(InOrder(z.left) + [z.node], InOrder(p.left) + [p.node], InOrder(p.right));
    AssocSeq(InOrder(z.left) + [z.node], InOrder(p.left), [p.node]);
  }

  lemma ZigOrder(t: Tree, k: int)
    requires t.Branch?
    ensures InOrder(ZigLeftShape(t, k)) == InOrder(ZigRightShape(t, k)) == InOrder(t)
  {
    if t.left.Branch? {
      RotationKeeps(t.left.left, t.left.node, t.left.right, t.node, t.right);
    }
    if t.right.Branch? {
      RotationKeeps(t.left, t.node, t.right.left, t.right.node, t.right.right);
    }
  }

  lemma {:induction false} SplitSeparates(t: Tree, k: int)
    requires t.Branch? && Sorted(InOrder(t))
    ensures Separates(Joined(Split(t, k)), k)
    decreases t
  {
    ZigOrder(t, k);
    RootParts(t);
    if k < t.node.key {
      var z := ZigLeftShape(t, k);
      RootParts(z);
      if z.left.Branch? {
        SplitSeparates(z.left, k);
      }
    } else if k > t.node.key {
      var z := ZigRightShape(t, k);
      RootParts(z);
      if z.right.Branch? {
        SplitSeparates(z.right, k);
      }
    }
  }

  lemma RootParts(t: Tree)
    requires t.Branch? && Sorted(InOrder(t))
    ensures Sorted(InOrder(t.left)) && Sorted(InOrder(t.right))
    ensures Below(InOrder(t.left), t.node.key) && Above(InOrder(t.right), t.node.key)
  {
    SortedParts(InOrder(t.left), [t.node], InOrder(t.right));
    assert t.node in [t.node];
  }

  lemma ServedSorted(t: Tree, q: Request)
    requires Sorted(InOrder(t))
    ensures Sorted(InOrder(Served(t, q)))
  {
    hide Sorted;
    match q
    case Access(k) =>
      SplayedSorted(t, k);
    case After(k) =>
      SplayedSorted(t, k);
    case Extreme(val) =>
      SplayedSorted(t, EndKey(t, val));
    case Add(elm) =>
      SplayedSorted(t, elm.key);
      var s := Splayed(t, elm.key);
      if s.Nil? {
        Single(elm);
      } else if s.node.key != elm.key {
        InsertKeeps(s, elm);
      }
    case Drop(k) =>
      SplayedSorted(t, k);
      var s := Splayed(t, k);
      if s.Branch? && s.node.key == k {
        DropSorted(s, k);
      }
  }

  lemma Single(elm: Node)
    ensures Sorted(InOrder(Branch(Nil, elm, Nil)))
  {
    assert InOrder(Branch(Nil, elm, Nil)) == [elm];
  }

  lemma SplayedSorted(t: Tree, k: int)
    requires Sorted(InOrder(t))
    ensures InOrder(Splayed(t, k)) == InOrder(t) && (t.Branch? ==> Separates(Splayed(t, k), k))
  {
    if t.Branch? {
      SplitOrder(t, k);
      SplitSeparates(t, k);
    }
  }

  lemma DropSorted(s: Tree, k: int)
    requires s.Branch? && s.node.key == k && Sorted(InOrder(s))
    ensures Sorted(InOrder(Rejoined(Splayed(s.left, k), s.right)))
  {
    hide Sorted, Separates;
    RemoveOrder(s, k);
    if s.left.Branch? {
      var l := Splayed(s.left, k);
      SplayedSorted(s.left, k);
      SortedDistinct(s);
      SortedDistinct(l);
      SameNodes(l, s.left);
      ReSplayed(l, s.right, k);
    }
  }

  lemma SameNodes(t: Tree, u: Tree)
    requires InOrder(t) == InOrder(u)
    ensures Nodes(t) == Nodes(u)
  {
    forall n | n in Nodes(t)
      ensures n in Nodes(u)
    {
      InOrderNodes(t, n);
      InOrderNodes(u, n);
    }
    forall n | n in Nodes(u)
      ensures n in Nodes(t)
    {
      InOrderNodes(t, n);
      InOrderNodes(u, n);
    }
  }

  // ----- The walks of a run -----

  /** What SPLAY_NEXT returns. */
  function Found(t: Tree, q: Request): Node? {
    var u := Served(t, q);
    if q.After? && u.Branch? then First(InOrder(u.right)) else null
  }

  /** The nodes it walks over to get there. */
  function Steps(t: Tree, q: Request): nat {
    var u := Served(t, q);
    if q.After? && u.Branch? then Spine(u.right) else 0
  }

  function Walks(t: Tree, requests: seq<Request>): nat
    decreases requests
  {
    if requests == [] then 0 else Steps(t, requests[0]) + Walks(Served(t, requests[0]), requests[1..])
  }

  /** The operation is on the node with this key: find, next, insert or remove. */
  predicate Visits(q: Request, k: int) {
    match q
    case Access(key) => key == k
    case After(key) => key == k
    case Drop(key) => key == k
    case Add(elm) => elm.key == k
    case Extreme(_) => false
  }

  /** The node that SPLAY_NEXT returns, if any, is what the next operation is on. */
  predicate FollowedUp(t: Tree, q: Request, rest: seq<Request>) {
    Found(t, q) == null || (rest != [] && Visits(rest[0], Found(t, q).key))
  }

  predicate AllFollowedUp(t: Tree, requests: seq<Request>)
    decreases requests
  {
    requests == []
    || (FollowedUp(t, requests[0], requests[1..]) && AllFollowedUp(Served(t, requests[0]), requests[1..]))
  }

  /** The walks to nodes that are not visited next. */
  function Wasted(t: Tree, requests: seq<Request>): (w: nat)
    ensures AllFollowedUp(t, requests) ==> w == 0
    decreases requests
  {
    if requests == [] then 0
    else
      (if FollowedUp(t, requests[0], requests[1..]) then 0 else Steps(t, requests[0]))
      + Wasted(Served(t, requests[0]), requests[1..])
  }

  lemma FollowUpPays(t: Tree, q: Request, next: Request)
    requires Sorted(InOrder(t)) && (Found(t, q) != null ==> Visits(next, Found(t, q).key))
    ensures Steps(t, q) <= 2 * ServedTurns(Served(t, q), next)
  {
    var u := Served(t, q);
    ServedSorted(t, q);
    if q.After? && u.Branch? && u.right.Branch? {
      LeastIsFirst(u.right);
      SuccessorPays(u);
    }
  }

  /** In every run of operations the walks cost at most twice the turns of the splay loop and the walks to nodes
      that are not visited next; these are walked in any case. */
  lemma {:induction false} WalksPaid(t: Tree, requests: seq<Request>)
    requires Sorted(InOrder(t))
    ensures Wasted(t, requests) <= Walks(t, requests) <= 2 * RunTurns(t, requests) + Wasted(t, requests)
    ensures requests != [] ==>
              Walks(t, requests) <= 2 * RunTurns(Served(t, requests[0]), requests[1..]) + Wasted(t, requests)
    decreases requests
  {
    if requests != [] {
      var q, rest := requests[0], requests[1..];
      var u := Served(t, q);
      ServedSorted(t, q);
      WalksPaid(u, rest);
      if FollowedUp(t, q, rest) {
        if rest != [] {
          FollowUpPays(t, q, rest[0]);
        } else {
          NothingFound(t, q);
        }
      }
    }
  }

  lemma NothingFound(t: Tree, q: Request)
    requires Found(t, q) == null
    ensures Steps(t, q) == 0
  {
    var u := Served(t, q);
    if q.After? && u.Branch? && u.right.Branch? {
      LeastIsFirst(u.right);
    }
  }

  /** The Balance Theorem with the walks: if every node that SPLAY_NEXT returns is visited next, turns and walks of
      all operations together are at most lg (n + 1) times three times the sum of the fees. */
  lemma BalanceWithWalks(requests: seq<Request>)
    requires AllFollowedUp(Nil, requests)
    ensures Walks(Nil, requests) <= 2 * RunTurns(Nil, requests)
    ensures Pow2(RunTurns(Nil, requests) + Walks(Nil, requests)) <= Power(Adds(requests) + 1, 3 * Fees(requests))
  {
    hide Walks, RunTurns, Fees, Adds, Pow2, Power;
    var turns := RunTurns(Nil, requests);
    WalksPaid(Nil, requests);
    BalanceTheorem(requests);
    Pow2Monotone(turns + Walks(Nil, requests), 3 * turns);
    Tripled(turns, Adds(requests) + 1, Fees(requests));
  }

  lemma Tripled(turns: nat, c: nat, e: nat)
    requires Pow2(turns) <= Power(c, e)
    ensures Pow2(3 * turns) <= Power(c, 3 * e)
  {
    hide Pow2, Power;
    var p, q := Pow2(turns), Power(c, e);
    Pow2Sum(turns, turns);
    Pow2Sum(2 * turns, turns);
    PowerSum(c, e, e);
    PowerSum(c, 2 * e, e);
    MulMonotone(p, q, p, q);
    MulMonotone(p * p, q * q, p, q);
  }

  // ----- Without that condition -----

  function Inserts(ns: seq<Node>): seq<Request> {
    seq(|ns|, i requires 0 <= i < |ns| => Add(ns[i]))
  }

  function Repeated(q: Request, m: nat): seq<Request> {
    seq(m, _ => q)
  }

  /** The last node on top, all others in one line to its left. */
  function Line(ns: seq<Node>): Tree {
    if ns == [] then Nil else Branch(Line(ns[..|ns| - 1]), ns[|ns| - 1], Nil)
  }

  lemma {:induction false} RunBoth(t: Tree, a: seq<Request>, b: seq<Request>)
    ensures Run(t, a + b) == Run(Run(t, a), b)
    ensures RunTurns(t, a + b) == RunTurns(t, a) + RunTurns(Run(t, a), b)
    ensures Walks(t, a + b) == Walks(t, a) + Walks(Run(t, a), b)
    decreases a
  {
    if a == [] {
      assert a + b == b;
    } else {
      assert (a + b)[1..] == a[1..] + b;
      RunBoth(Served(t, a[0]), a[1..], b);
    }
  }

  lemma RunOne(t: Tree, q: Request)
    ensures Run(t, [q]) == Served(t, q) && RunTurns(t, [q]) == ServedTurns(t, q) && Walks(t, [q]) == Steps(t, q)
  {
    assert [q][1..] == [];
  }

  /** Inserting in ascending order makes a line, in one turn for each node but the first. */
  lemma {:induction false} LineMade(ns: seq<Node>)
    requires Sorted(ns)
    ensures Run(Nil, Inserts(ns)) == Line(ns) && Walks(Nil, Inserts(ns)) == 0
    ensures RunTurns(Nil, Inserts(ns)) == if ns == [] then 0 else |ns| - 1
  {
    if ns != [] {
      var front, q := ns[..|ns| - 1], Add(ns[|ns| - 1]);
      LineMade(front);
      assert Inserts(ns) == Inserts(front) + [q];
      RunBoth(Nil, Inserts(front), [q]);
      RunOne(Line(front), q);
    }
  }

  /** Splaying a line by its least key halves it. */
  lemma {:induction false} LineSplit(ns: seq<Node>)
    requires Sorted(ns) && ns != []
    ensures var p := Split(Line(ns), ns[0].key);
            p.left == Nil && p.node == ns[0] && Spine(p.right) == Turns(Line(ns), ns[0].key) == |ns| / 2
  {
    var n := |ns|;
    if n > 1 {
      assert ns[..n - 1][..n - 2] == ns[..n - 2];
      assert Line(ns[..n - 1]) == Branch(Line(ns[..n - 2]), ns[n - 2], Nil);
      if n == 2 {
        assert Line(ns[..0]) == Nil;
      } else {
        LineSplit(ns[..n - 2]);
      }
    }
  }

  /** SPLAY_NEXT of the node at the root splays nothing and walks the same way every time. */
  lemma {:induction false} SameWalks(t: Tree, m: nat)
    requires t.Branch?
    ensures var q := Repeated(After(t.node.key), m);
            Run(t, q) == t && RunTurns(t, q) == 0 && Walks(t, q) == m * Spine(t.right)
  {
    if m > 0 {
      var q := After(t.node.key);
      assert Repeated(q, m)[0] == q && Repeated(q, m)[1..] == Repeated(q, m - 1);
      assert Served(t, q) == t && Steps(t, q) == Spine(t.right);
      SameWalks(t, m - 1);
    }
  }

  lemma OnceMore(m: nat, x: nat)
    requires m > 0
    ensures x + (m - 1) * x == m * x
  {
  }

  /** Without the condition the walks are not bounded by the turns: after n inserts in ascending order, every
      SPLAY_NEXT of the least node walks n / 2 nodes, and all but the first leave the tree as it is. */
  lemma NextWalks(ns: seq<Node>, m: nat)
    requires Sorted(ns) && ns != [] && m > 0
    ensures var requests := Inserts(ns) + Repeated(After(ns[0].key), m);
            && RunTurns(Nil, requests) == |ns| - 1 + |ns| / 2
            && Walks(Nil, requests) == m * (|ns| / 2)
  {
    var q, line := After(ns[0].key), Line(ns);
    LineMade(ns);
    LineSplit(ns);
    RunBoth(Nil, Inserts(ns), Repeated(q, m));
    var t := Served(line, q);
    assert Repeated(q, m) == [q] + Repeated(q, m - 1);
    RunBoth(line, [q], Repeated(q, m - 1));
    RunOne(line, q);
    assert t.Branch? && t.node == ns[0] && Spine(t.right) == |ns| / 2;
    SameWalks(t, m - 1);
    OnceMore(m, |ns| / 2);
  }

  // ----- Visiting all nodes -----

  lemma {:induction false} SizeIsLength(t: Tree)
    ensures Size(t) == |InOrder(t)| + 1
  {
    if t.Branch? {
      SizeIsLength(t.left);
      SizeIsLength(t.right);
    }
  }

  /** While all nodes are visited: the turns are paid for, and so are the walks, the last one by the splay of `x`
      that is still to come. */
  ghost predicate Charged(start: Tree, t: Tree, x: Node?, turns: nat, steps: nat, c: nat, e: nat) {
    && Paid(turns, start, t, c, e) && Size(t) == c
    && steps <= 2 * turns + if x == null then 0 else 2 * SplayTurns(t, x.key)
  }

  lemma ChargedStart(t: Tree, val: int, x: Node?)
    ensures Charged(t, Served(t, Extreme(val)), x, ServedTurns(t, Extreme(val)), 0, Size(t), 3)
  {
    SplayedPaid(t, EndKey(t, val), Size(t));
  }

  lemma ChargedNext(start: Tree, t: Tree, x: Node, turns: nat, steps: nat, c: nat, e: nat)
    requires Charged(start, t, x, turns, steps, c, e) && Sorted(InOrder(t))
    ensures var q := After(x.key);
            Charged(start, Served(t, q), Found(t, q), turns + ServedTurns(t, q), steps + Steps(t, q), c, e + 3)
  {
    hide Paid, Size, Splayed, SplayTurns, Found, Steps;
    var q := After(x.key);
    SplayedPaid(t, x.key, c);
    PaidThen(turns, start, t, e, SplayTurns(t, x.key), Splayed(t, x.key), c, 3);
    if Found(t, q) == null {
      NothingFound(t, q);
    } else {
      FollowUpPays(t, q, After(Found(t, q).key));
    }
  }

  lemma ChargedEnd(start: Tree, t: Tree, turns: nat, steps: nat, n: nat)
    requires Charged(start, t, null, turns, steps, Size(start), 3 * n + 3) && n == |InOrder(start)|
    ensures steps <= 2 * turns && Pow2(turns) <= Power(n + 1, 4 * n + 3)
  {
    hide Paid, Power, Pow2;
    SizeIsLength(start);
    PaidCost(turns, start, t, n + 1, 3 * n + 3);
  }
}
