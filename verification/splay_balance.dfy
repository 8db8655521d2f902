/**
 The cost of splaying.  `Turns` counts the turns of the loop of name_SPLAY, and `Parts` is what the
 loop makes of a tree.  The potential of a tree is kept as a product, so that the amortised bound,
 usually written with logarithms, is one on natural numbers.
 */
module SplayBalance {
  import opened Powers
  import opened SplayShape

  datatype Parts = Parts(left: Tree, node: Node, right: Tree)

  /** The rotation at the start of a turn towards smaller keys (tree.h:213-220). */
  function ZigLeftShape(t: Tree, k: int): (z: Tree)
    requires t.Branch?
    ensures z.Branch?
  {
    if t.left.Branch? && k < t.left.node.key then
      Branch(t.left.left, t.left.node, Branch(t.left.right, t.node, t.right))
    else t
  }

  /** The rotation at the start of a turn towards larger keys (tree.h:223-230). */
  function ZigRightShape(t: Tree, k: int): (z: Tree)
    requires t.Branch?
    ensures z.Branch?
  {
    if t.right.Branch? && k > t.right.node.key then
      Branch(Branch(t.left, t.node, t.right.left), t.right.node, t.right.right)
    else t
  }

  /** The left tree, the root and the right tree that the loop ends with. */
  function Split(t: Tree, k: int): Parts
    requires t.Branch?
    decreases t
  {
    if k == t.node.key then Parts(t.left, t.node, t.right)
    else if k < t.node.key then
      var z := ZigLeftShape(t, k);
      if z.left.Nil? then Parts(z.left, z.node, z.right)
      else
        var rest := Split(z.left, k);
        Parts(rest.left, rest.node, Branch(rest.right, z.node, z.right))
    else
      var z := ZigRightShape(t, k);
      if z.right.Nil? then Parts(z.left, z.node, z.right)
      else
        var rest := Split(z.right, k);
        Parts(Branch(z.left, z.node, rest.left), rest.node, rest.right)
  }

  /** The turns of the loop, the one that ends in a `break` included. */
  function Turns(t: Tree, k: int): nat
    requires t.Branch?
    decreases t
  {
    if k == t.node.key then 0
    else if k < t.node.key then
      var z := ZigLeftShape(t, k);
      if z.left.Nil? then 1 else 1 + Turns(z.left, k)
    else
      var z := ZigRightShape(t, k);
      if z.right.Nil? then 1 else 1 + Turns(z.right, k)
  }

  function Joined(p: Parts): Tree {
    Branch(p.left, p.node, p.right)
  }

  /** One more than the number of nodes. */
  function Size(t: Tree): (s: nat)
    ensures s > 0
  {
    if t.Nil? then 1 else Size(t.left) + Size(t.right)
  }

  function Times(a: nat, b: nat, c: nat): (p: nat)
    ensures a > 0 && b > 0 && c > 0 ==> p > 0
  {
    a * b * c
  }

  /** The potential: the product of the sizes of all subtrees. */
  function Potential(t: Tree): (p: nat)
    ensures p > 0
  {
    if t.Nil? then 1 else Times(Size(t), Potential(t.left), Potential(t.right))
  }

  lemma {:induction false} SplitSize(t: Tree, k: int)
    requires t.Branch?
    ensures Size(Split(t, k).left) + Size(Split(t, k).right) == Size(t)
    decreases t
  {
    if k < t.node.key {
      var z := ZigLeftShape(t, k);
      if z.left.Branch? {
        SplitSize(z.left, k);
      }
    } else if k > t.node.key {
      var z := ZigRightShape(t, k);
      if z.right.Branch? {
        SplitSize(z.right, k);
      }
    }
  }

  // ----- The arithmetic of one or two turns -----

  /** Four times the product of two numbers is at most the square of their sum. */
  lemma Means(a: nat, b: nat)
    ensures 4 * a * b <= (a + b) * (a + b)
  {
    assert (a + b) * (a + b) - 4 * a * b == (a - b) * (a - b);
    assert (a - b) * (a - b) >= 0;
  }

  /** A weight `w` of a part of size `d` and potential `pd`, inside a tree of size `s` below a node of
      size `m`. */
  lemma Inside(w: nat, d: nat, pd: nat, s: nat, m: nat)
    requires w <= d * d * pd && d <= s && d <= m
    ensures w <= s * m * pd
  {
    MulMonotone(d, s, d, m);
    MulMonotone(d * d, s * m, pd, pd);
  }

  lemma ZigZag(w: nat, d: nat, pd: nat, s: nat, m: nat, sl: nat, sr: nat, rest: nat)
    requires w <= d * d * pd && d <= s && d <= m && sl + sr == s
    ensures 4 * sl * sr * w * rest <= s * s * (s * m * pd) * rest
  {
    Means(sl, sr);
    Inside(w, d, pd, s, m);
    Chain(4 * sl * sr, s * s, w, s * m * pd, rest);
  }

  lemma Chain(a: nat, a': nat, b: nat, b': nat, rest: nat)
    requires a <= a' && b <= b'
    ensures a * b * rest <= a' * b' * rest
  {
    MulMonotone(a, a', b, b');
    MulMonotone(a * b, a' * b', rest, rest);
  }

  lemma ZigZig(w: nat, d: nat, pd: nat, s: nat, m: nat, sr: nat, sq: nat, rest: nat)
    requires w <= d * d * pd && d <= m && d + sq == s && sr <= s
    ensures 2 * sq * sr * w * rest <= s * s * (s * m * pd) * rest
  {
    HalfMeans(d, sq);
    MulMonotone(sr, s, w, d * d * pd);
    MulMonotone(2 * sq, 2 * sq, sr * w, s * (d * d * pd));
    Shuffle(d, pd, s, sq);
    MulMonotone(d, m, s * pd, s * pd);
    Chain(2 * d * sq, s * s, d * (s * pd), m * (s * pd), rest);
    AssocTwice(sq, sr, w);
    Assoc3(m, s, pd);
    MulMonotone(2 * sq * sr * w, 2 * d * sq * (d * (s * pd)), rest, rest);
  }

  lemma HalfMeans(a: nat, b: nat)
    ensures 2 * a * b <= (a + b) * (a + b)
  {
    Means(a, b);
    assert a * b >= 0;
  }

  lemma Shuffle(d: nat, pd: nat, s: nat, sq: nat)
    ensures 2 * sq * (s * (d * d * pd)) == 2 * d * sq * (d * (s * pd))
  {
  }

  lemma AssocTwice(sq: nat, sr: nat, w: nat)
    ensures 2 * sq * (sr * w) == 2 * sq * sr * w
  {
  }

  lemma Assoc3(m: nat, s: nat, pd: nat)
    ensures m * (s * pd) == s * m * pd
  {
  }

  /** A last turn or two, of at most four times the potential that the tree has anyway. */
  lemma Stop(f: nat, x: nat, s: nat, m: nat, rest: nat)
    requires f <= 4 && x <= s && s >= 2 && m >= 1
    ensures f * x * rest <= s * s * (s * m * rest)
  {
    MulMonotone(2, s, 2, s);
    MulMonotone(1, m, s * rest, s * rest);
    Chain(f, s * s, x, s, rest);
    assert s * s * s * rest == s * s * (s * rest);
    MulMonotone(s * s, s * s, s * rest, m * (s * rest));
    assert m * (s * rest) == s * m * rest;
  }

  // ----- The bound for one splay -----

  function Weight(t: Tree, k: int): nat
    requires t.Branch?
  {
    Times(Pow2(Turns(t, k)), Potential(Split(t, k).left), Potential(Split(t, k).right))
  }

  /** The amortised bound: 2^turns times the new potential of both sides is at most size^2 times the old
      potential. */
  ghost predicate Bounded(t: Tree, k: int)
    requires t.Branch?
  {
    Weight(t, k) <= Times(Size(t), Size(t), Potential(t))
  }

  lemma ZigZigBound(turns: nat, pl: nat, pr: nat, d: nat, pd: nat, s: nat, m: nat, sr: nat, sq: nat, pb: nat, pc: nat)
    requires Times(turns, pl, pr) <= Times(d, d, pd) && d <= m && d + sq == s && sr <= s
    ensures Times(2 * turns, pl, Times(sr, pr, Times(sq, pb, pc))) <= Times(s, s, Times(s, Times(m, pd, pb), pc))
    ensures Times(2 * turns, Times(sr, Times(sq, pc, pb), pl), pr) <= Times(s, s, Times(s, pc, Times(m, pb, pd)))
  {
    ZigZig(turns * pl * pr, d, pd, s, m, sr, sq, pb * pc);
    ZigZigProduct(turns, pl, sr, pr, sq, pb, pc);
    ZigZigPotential(s, m, pd, pb, pc);
  }

  lemma ZigZigProduct(turns: nat, pl: nat, sr: nat, pr: nat, sq: nat, pb: nat, pc: nat)
    ensures 2 * turns * pl * (sr * pr * (sq * pb * pc)) == 2 * sq * sr * (turns * pl * pr) * (pb * pc)
    ensures 2 * turns * (sr * (sq * pc * pb) * pl) * pr == 2 * sq * sr * (turns * pl * pr) * (pb * pc)
  {
  }

  lemma ZigZigPotential(s: nat, m: nat, pa: nat, pb: nat, pc: nat)
    ensures s * s * (s * (m * pa * pb) * pc) == s * s * (s * m * pa) * (pb * pc)
    ensures s * s * (s * pc * (m * pb * pa)) == s * s * (s * m * pa) * (pb * pc)
  {
  }

  lemma StopBound(f: nat, x: nat, s: nat, m: nat, pb: nat, pc: nat)
    requires f <= 4 && x <= s && s >= 2 && m >= 1
    ensures Times(f, 1, Times(x, pb, pc)) <= Times(s, s, Times(s, Times(m, 1, pb), pc))
    ensures Times(f, Times(x, pb, pc), 1) <= Times(s, s, Times(s, pb, Times(m, pc, 1)))
  {
    Stop(f, x, s, m, pb * pc);
    StopProduct(f, x, s, m, pb, pc);
  }

  lemma StopProduct(f: nat, x: nat, s: nat, m: nat, pb: nat, pc: nat)
    ensures f * x * (pb * pc) == f * 1 * (x * pb * pc)
    ensures f * x * (pb * pc) == f * (x * pb * pc) * 1
    ensures s * s * (s * m * (pb * pc)) == s * s * (s * (m * 1 * pb) * pc)
    ensures s * s * (s * m * (pb * pc)) == s * s * (s * pb * (m * pc * 1))
  {
    Group3(f, x, pb, pc);
    Group3(s, m, pb, pc);
    Group3(s, m, pc, pb);
  }

  lemma Group3(a: nat, b: nat, c: nat, d: nat)
    ensures a * b * (c * d) == a * (b * c * d)
    ensures a * b * (c * d) == a * (b * c) * d
    ensures a * b * (c * d) == a * d * (b * c)
  {
  }

  lemma ZigZigLeftCost(t: Tree, k: int)
    requires t.Branch? && k < t.node.key && t.left.Branch? && k < t.left.node.key
    requires t.left.left.Branch? ==> Bounded(t.left.left, k)
    ensures Bounded(t, k)
  {
    hide Times;
    var y, c := t.left, t.right;
    var a, b := y.left, y.right;
    var q := Branch(b, t.node, c);
    var pb, pc := Potential(b), Potential(c);
    assert Potential(t) == Times(Size(t), Times(Size(y), Potential(a), pb), pc);
    if a.Nil? {
      StopBound(2, Size(q), Size(t), Size(y), pb, pc);
    } else {
      var p := Split(a, k);
      SplitSize(a, k);
      var r := Branch(p.right, y.node, q);
      assert Split(t, k) == Parts(p.left, p.node, r) && Pow2(Turns(t, k)) == 2 * Pow2(Turns(a, k));
      assert Potential(r) == Times(Size(r), Potential(p.right), Times(Size(q), pb, pc));
      ZigZigBound(Pow2(Turns(a, k)), Potential(p.left), Potential(p.right), Size(a), Potential(a), Size(t), Size(y),
                  Size(r), Size(q), pb, pc);
    }
  }

  lemma ZigZigRightCost(t: Tree, k: int)
    requires t.Branch? && k > t.node.key && t.right.Branch? && k > t.right.node.key
    requires t.right.right.Branch? ==> Bounded(t.right.right, k)
    ensures Bounded(t, k)
  {
    hide Times;
    var y, c := t.right, t.left;
    var a, b := y.right, y.left;
    var q := Branch(c, t.node, b);
    var pb, pc := Potential(b), Potential(c);
    assert Potential(t) == Times(Size(t), pc, Times(Size(y), pb, Potential(a)));
    if a.Nil? {
      StopBound(2, Size(q), Size(t), Size(y), pc, pb);
    } else {
      var p := Split(a, k);
      SplitSize(a, k);
      var l := Branch(q, y.node, p.left);
      assert Split(t, k) == Parts(l, p.node, p.right) && Pow2(Turns(t, k)) == 2 * Pow2(Turns(a, k));
      assert Potential(l) == Times(Size(l), Times(Size(q), pc, pb), Potential(p.left));
      ZigZigBound(Pow2(Turns(a, k)), Potential(p.left), Potential(p.right), Size(a), Potential(a), Size(t), Size(y),
                  Size(l), Size(q), pb, pc);
    }
  }

  lemma ZagStopBound(f: nat, x: nat, s: nat, m: nat, pb: nat, pd: nat, pc: nat)
    requires f <= 4 && x <= s && s >= 2 && m >= 1
    ensures Times(f, pb, Times(x, pd, pc)) <= Times(s, s, Times(s, Times(m, pb, pd), pc))
    ensures Times(f, Times(x, pc, pd), pb) <= Times(s, s, Times(s, pc, Times(m, pd, pb)))
  {
    Stop(f, x, s, m, pb * pd * pc);
    Group3(f, x, pb * pd, pc);
    Group3(f, x, pb, pd * pc);
    ZagStopLeft(f, x, pb, pd, pc);
    ZagStopRight(f, x, pb, pd, pc);
    ZagStopPotential(s, m, pb, pd, pc);
  }

  lemma ZagStopLeft(f: nat, x: nat, pb: nat, pd: nat, pc: nat)
    ensures f * x * (pb * pd * pc) == f * pb * (x * pd * pc)
  {
  }

  lemma ZagStopRight(f: nat, x: nat, pb: nat, pd: nat, pc: nat)
    ensures f * x * (pb * pd * pc) == f * (x * pc * pd) * pb
  {
  }

  lemma ZagStopPotential(s: nat, m: nat, pb: nat, pd: nat, pc: nat)
    ensures s * m * (pb * pd * pc) == s * (m * pb * pd) * pc
    ensures s * m * (pb * pd * pc) == s * pc * (m * pd * pb)
  {
  }

  lemma ZagZigStopBound(x: nat, s: nat, m: nat, mz: nat, sq: nat, pb: nat, pe: nat, pc: nat)
    requires x <= s && s >= 2 && mz >= 1 && sq <= m
    ensures Times(4, Times(sq, pb, pe), Times(x, 1, pc)) <= Times(s, s, Times(s, Times(m, pb, Times(mz, pe, 1)), pc))
    ensures Times(4, Times(x, pc, 1), Times(sq, pe, pb)) <= Times(s, s, Times(s, pc, Times(m, Times(mz, 1, pe), pb)))
  {
    ZagStopBound(4, x, s, mz, Times(sq, pb, pe), 1, pc);
    ZagZigPotential(s, m, mz, sq, pb, pe, 1, pc);
  }

  lemma ZagBound(turns: nat, pl: nat, pr: nat, d: nat, pd: nat, s: nat, m: nat, sl: nat, sr: nat, pb: nat, pc: nat)
    requires Times(turns, pl, pr) <= Times(d, d, pd) && d <= s && d <= m && sl + sr == s
    ensures Times(4 * turns, Times(sl, pb, pl), Times(sr, pr, pc)) <= Times(s, s, Times(s, Times(m, pb, pd), pc))
    ensures Times(4 * turns, Times(sl, pc, pl), Times(sr, pr, pb)) <= Times(s, s, Times(s, pc, Times(m, pd, pb)))
  {
    ZigZag(turns * pl * pr, d, pd, s, m, sl, sr, pb * pc);
    ZagProduct(turns, pl, pr, sl, sr, pb, pc);
    ZigZigPotential(s, m, pd, pb, pc);
    ZagPotential(s, m, pd, pb, pc);
  }

  lemma ZagProduct(turns: nat, pl: nat, pr: nat, sl: nat, sr: nat, pb: nat, pc: nat)
    ensures 4 * turns * (sl * pb * pl) * (sr * pr * pc) == 4 * sl * sr * (turns * pl * pr) * (pb * pc)
    ensures 4 * turns * (sl * pc * pl) * (sr * pr * pb) == 4 * sl * sr * (turns * pl * pr) * (pb * pc)
  {
    LastTwo(sl, pb, pl);
    LastTwo(sl, pc, pl);
    Cross(4 * turns, sl * pl, pb, sr * pr, pc);
    Cross(4 * turns, sl * pl, pc, sr * pr, pb);
    Gather(turns, sl, pl, sr, pr);
  }

  lemma LastTwo(a: nat, b: nat, c: nat)
    ensures a * b * c == a * c * b
  {
  }

  lemma Cross(a: nat, b: nat, c: nat, d: nat, e: nat)
    ensures a * (b * c) * (d * e) == a * b * d * (c * e) == a * b * d * (e * c)
  {
    Assoc(a, b, c);
    Pairs(a * b, c, d, e);
  }

  lemma Pairs(a: nat, c: nat, d: nat, e: nat)
    ensures a * c * (d * e) == a * d * (c * e)
  {
  }

  lemma Gather(turns: nat, sl: nat, pl: nat, sr: nat, pr: nat)
    ensures 4 * turns * (sl * pl) * (sr * pr) == 4 * sl * sr * (turns * pl * pr)
  {
    Pairs(4 * turns, sl * pl, sr, pr);
    Cross(4 * turns, sl, pl, sr, pr);
    Assoc(turns, pl, pr);
    Spread(turns, sl * sr, pl * pr);
    Assoc(4, sl, sr);
    Assoc(4 * turns, sl, sr);
  }

  lemma Spread(turns: nat, a: nat, b: nat)
    ensures 4 * turns * a * b == 4 * a * (turns * b)
  {
  }

  lemma ZagPotential(s: nat, m: nat, pd: nat, pb: nat, pc: nat)
    ensures s * s * (s * (m * pb * pd) * pc) == s * s * (s * m * pd) * (pb * pc)
    ensures s * s * (s * pc * (m * pd * pb)) == s * s * (s * m * pd) * (pb * pc)
  {
  }

  lemma ZagZigBound(turns: nat, pl: nat, pr: nat, d: nat, pd: nat, s: nat, m: nat, mz: nat, sl: nat, sr: nat, sq: nat,
          pb: nat, pe: nat, pc: nat)
    requires Times(turns, pl, pr) <= Times(d, d, pd) && d <= s && d <= mz && sl + sr == s && sq <= m
    ensures Times(4 * turns, Times(sl, Times(sq, pb, pe), pl), Times(sr, pr, pc))
         <= Times(s, s, Times(s, Times(m, pb, Times(mz, pe, pd)), pc))
    ensures Times(4 * turns, Times(sl, pc, pl), Times(sr, pr, Times(sq, pe, pb)))
         <= Times(s, s, Times(s, pc, Times(m, Times(mz, pd, pe), pb)))
  {
    ZagBound(turns, pl, pr, d, pd, s, mz, sl, sr, Times(sq, pb, pe), pc);
    ZagZigPotential(s, m, mz, sq, pb, pe, pd, pc);
  }

  /** The size of the node that was rotated away is not larger than before. */
  lemma ZagZigPotential(s: nat, m: nat, mz: nat, sq: nat, pb: nat, pe: nat, pd: nat, pc: nat)
    requires sq <= m
    ensures Times(sq, pb, pe) == Times(sq, pe, pb)
    ensures Times(s, s, Times(s, Times(mz, Times(sq, pb, pe), pd), pc))
         <= Times(s, s, Times(s, Times(m, pb, Times(mz, pe, pd)), pc))
    ensures Times(s, s, Times(s, pc, Times(mz, pd, Times(sq, pb, pe))))
         <= Times(s, s, Times(s, pc, Times(m, Times(mz, pd, pe), pb)))
  {
    Commute(sq, pb, pe);
    Lower(m, mz, sq, pb, pe, pd);
    hide Times;
    Outer(s, Times(mz, Times(sq, pb, pe), pd), Times(m, pb, Times(mz, pe, pd)), pc);
    Outer(s, Times(mz, pd, Times(sq, pb, pe)), Times(m, Times(mz, pd, pe), pb), pc);
  }

  lemma Commute(a: nat, b: nat, c: nat)
    ensures Times(a, b, c) == Times(a, c, b)
  {
  }

  lemma Lower(m: nat, mz: nat, sq: nat, pb: nat, pe: nat, pd: nat)
    requires sq <= m
    ensures Times(mz, Times(sq, pb, pe), pd) <= Times(m, pb, Times(mz, pe, pd))
    ensures Times(mz, pd, Times(sq, pb, pe)) <= Times(m, Times(mz, pd, pe), pb)
  {
    SecondFactor(sq, mz, pb, pe, pd);
    FirstFactor(m, mz, pb, pe, pd);
    hide Times, Product4;
    var k := Product4(mz, pb, pe, pd);
    MulMonotone(sq, m, k, k);
  }

  function Product4(a: nat, b: nat, c: nat, d: nat): nat {
    a * b * c * d
  }

  lemma SecondFactor(m: nat, mz: nat, pb: nat, pe: nat, pd: nat)
    ensures Times(mz, Times(m, pb, pe), pd) == m * Product4(mz, pb, pe, pd)
    ensures Times(mz, pd, Times(m, pb, pe)) == m * Product4(mz, pb, pe, pd)
  {
  }

  lemma FirstFactor(m: nat, mz: nat, pb: nat, pe: nat, pd: nat)
    ensures Times(m, pb, Times(mz, pe, pd)) == m * Product4(mz, pb, pe, pd)
    ensures Times(m, Times(mz, pd, pe), pb) == m * Product4(mz, pb, pe, pd)
  {
    Rotated(mz, pb, pe, pd);
    TimesOut(m, pb, Times(mz, pe, pd));
    TimesOut(m, pb, Times(mz, pd, pe));
    hide Times, Product4;
  }

  lemma TimesOut(a: nat, b: nat, c: nat)
    ensures Times(a, b, c) == Times(a, c, b) == a * (b * c)
  {
  }

  lemma Rotated(mz: nat, pb: nat, pe: nat, pd: nat)
    ensures pb * Times(mz, pe, pd) == Product4(mz, pb, pe, pd)
    ensures pb * Times(mz, pd, pe) == Product4(mz, pb, pe, pd)
  {
  }

  lemma Outer(s: nat, x: nat, y: nat, pc: nat)
    requires x <= y
    ensures Times(s, s, Times(s, x, pc)) <= Times(s, s, Times(s, y, pc))
    ensures Times(s, s, Times(s, pc, x)) <= Times(s, s, Times(s, pc, y))
  {
    OuterFactor(s, x, pc);
    OuterFactor(s, y, pc);
    hide Times, Product4;
    var k := Product4(s, s, s, pc);
    MulMonotone(x, y, k, k);
  }

  lemma OuterFactor(s: nat, x: nat, pc: nat)
    ensures Times(s, s, Times(s, x, pc)) == x * Product4(s, s, s, pc)
    ensures Times(s, s, Times(s, pc, x)) == x * Product4(s, s, s, pc)
  {
    assert s * x * pc == s * pc * x == x * (s * pc);
    assert s * s * (x * (s * pc)) == x * (s * s * (s * pc));
    assert s * s * (s * pc) == Product4(s, s, s, pc);
  }

  // ----- One splay -----

  lemma ZagLeftCost(t: Tree, k: int)
    requires t.Branch? && k < t.node.key && t.left.Branch? && k >= t.left.node.key
    requires var y := t.left;
             y.right.Branch? ==> Bounded(y.right, k) && (y.right.right.Branch? ==> Bounded(y.right.right, k))
    ensures Bounded(t, k)
  {
    hide Times;
    var y, c := t.left, t.right;
    var b, d := y.left, y.right;
    var pb, pc := Potential(b), Potential(c);
    assert Potential(t) == Times(Size(t), Times(Size(y), pb, Potential(d)), pc);
    if k == y.node.key || d.Nil? {
      var f := if k == y.node.key then 2 else 4;
      assert Pow2(1) == 2 && Pow2(2) == 4;
      assert Turns(t, k) == if k == y.node.key then 1 else 2;
      var r := Branch(d, t.node, c);
      assert Split(t, k) == Parts(b, y.node, r) && Pow2(Turns(t, k)) == f;
      assert Potential(r) == Times(Size(r), Potential(d), pc);
      ZagStopBound(f, Size(r), Size(t), Size(y), pb, Potential(d), pc);
    } else if k <= d.node.key {
      var p := Split(d, k);
      SplitSize(d, k);
      var l, r := Branch(b, y.node, p.left), Branch(p.right, t.node, c);
      assert Split(t, k) == Parts(l, p.node, r);
      assert Turns(t, k) == 2 + Turns(d, k) && Pow2(Turns(t, k)) == 2 * Pow2(1 + Turns(d, k)) == 4 * Pow2(Turns(d, k));
      assert Potential(l) == Times(Size(l), pb, Potential(p.left));
      assert Potential(r) == Times(Size(r), Potential(p.right), pc);
      ZagBound(Pow2(Turns(d, k)), Potential(p.left), Potential(p.right), Size(d), Potential(d), Size(t), Size(y),
               Size(l), Size(r), pb, pc);
    } else {
      var e, a := d.left, d.right;
      var q := Branch(b, y.node, e);
      assert Potential(q) == Times(Size(q), pb, Potential(e));
      assert Potential(d) == Times(Size(d), Potential(e), Potential(a));
      if a.Nil? {
        var r := Branch(Nil, t.node, c);
        assert Pow2(1) == 2 && Pow2(2) == 4;
        assert Split(t, k) == Parts(q, d.node, r) && Pow2(Turns(t, k)) == 4;
        assert Potential(r) == Times(Size(r), 1, pc);
        ZagZigStopBound(Size(r), Size(t), Size(y), Size(d), Size(q), pb, Potential(e), pc);
      } else {
        var p := Split(a, k);
        SplitSize(a, k);
        var l, r := Branch(q, d.node, p.left), Branch(p.right, t.node, c);
        assert Split(t, k) == Parts(l, p.node, r);
        assert Turns(t, k) == 2 + Turns(a, k);
        assert Pow2(Turns(t, k)) == 2 * Pow2(1 + Turns(a, k)) == 4 * Pow2(Turns(a, k));
        assert Potential(l) == Times(Size(l), Potential(q), Potential(p.left));
        assert Potential(r) == Times(Size(r), Potential(p.right), pc);
        ZagZigBound(Pow2(Turns(a, k)), Potential(p.left), Potential(p.right), Size(a), Potential(a), Size(t), Size(y),
                    Size(d), Size(l), Size(r), Size(q), pb, Potential(e), pc);
      }
    }
  }

  lemma ZagRightCost(t: Tree, k: int)
    requires t.Branch? && k > t.node.key && t.right.Branch? && k <= t.right.node.key
    requires var y := t.right;
             y.left.Branch? ==> Bounded(y.left, k) && (y.left.left.Branch? ==> Bounded(y.left.left, k))
    ensures Bounded(t, k)
  {
    hide Times;
    var y, c := t.right, t.left;
    var b, d := y.right, y.left;
    var pb, pc := Potential(b), Potential(c);
    assert Potential(t) == Times(Size(t), pc, Times(Size(y), Potential(d), pb));
    if k == y.node.key || d.Nil? {
      var f := if k == y.node.key then 2 else 4;
      assert Pow2(1) == 2 && Pow2(2) == 4;
      assert Turns(t, k) == if k == y.node.key then 1 else 2;
      var l := Branch(c, t.node, d);
      assert Split(t, k) == Parts(l, y.node, b) && Pow2(Turns(t, k)) == f;
      assert Potential(l) == Times(Size(l), pc, Potential(d));
      ZagStopBound(f, Size(l), Size(t), Size(y), pb, Potential(d), pc);
    } else if k >= d.node.key {
      var p := Split(d, k);
      SplitSize(d, k);
      var l, r := Branch(c, t.node, p.left), Branch(p.right, y.node, b);
      assert Split(t, k) == Parts(l, p.node, r);
      assert Turns(t, k) == 2 + Turns(d, k) && Pow2(Turns(t, k)) == 2 * Pow2(1 + Turns(d, k)) == 4 * Pow2(Turns(d, k));
      assert Potential(l) == Times(Size(l), pc, Potential(p.left));
      assert Potential(r) == Times(Size(r), Potential(p.right), pb);
      ZagBound(Pow2(Turns(d, k)), Potential(p.left), Potential(p.right), Size(d), Potential(d), Size(t), Size(y),
               Size(l), Size(r), pb, pc);
    } else {
      var e, a := d.right, d.left;
      var q := Branch(e, y.node, b);
      assert Potential(q) == Times(Size(q), Potential(e), pb);
      assert Potential(d) == Times(Size(d), Potential(a), Potential(e));
      if a.Nil? {
        var l := Branch(c, t.node, Nil);
        assert Pow2(1) == 2 && Pow2(2) == 4;
        assert Split(t, k) == Parts(l, d.node, q) && Pow2(Turns(t, k)) == 4;
        assert Potential(l) == Times(Size(l), pc, 1);
        ZagZigStopBound(Size(l), Size(t), Size(y), Size(d), Size(q), pb, Potential(e), pc);
      } else {
        var p := Split(a, k);
        SplitSize(a, k);
        var l, r := Branch(c, t.node, p.left), Branch(p.right, d.node, q);
        assert Split(t, k) == Parts(l, p.node, r);
        assert Turns(t, k) == 2 + Turns(a, k);
        assert Pow2(Turns(t, k)) == 2 * Pow2(1 + Turns(a, k)) == 4 * Pow2(Turns(a, k));
        assert Potential(l) == Times(Size(l), pc, Potential(p.left));
        assert Potential(r) == Times(Size(r), Potential(p.right), Potential(q));
        ZagZigBound(Pow2(Turns(a, k)), Potential(p.left), Potential(p.right), Size(a), Potential(a), Size(t), Size(y),
                    Size(d), Size(l), Size(r), Size(q), pb, Potential(e), pc);
      }
    }
  }

  lemma LastTurnBound(f: nat, s: nat, pa: nat, pb: nat)
    requires f <= 2 <= s
    ensures Times(f, pa, pb) <= Times(s, s, Times(s, pa, pb))
  {
    Stop(f, 1, s, 1, pa * pb);
    assert f * 1 * (pa * pb) == f * pa * pb && s * 1 * (pa * pb) == s * pa * pb;
  }

  /** The cost of splaying by any key is bounded, whatever the tree. */
  lemma {:induction false} SplitCost(t: Tree, k: int)
    requires t.Branch?
    ensures Bounded(t, k)
    decreases t
  {
    hide Times, Bounded;
    if k == t.node.key || (k < t.node.key && t.left.Nil?) || (k > t.node.key && t.right.Nil?) {
      LastTurnCost(t, k);
    } else if k < t.node.key && k < t.left.node.key {
      if t.left.left.Branch? {
        SplitCost(t.left.left, k);
      }
      ZigZigLeftCost(t, k);
    } else if k < t.node.key {
      if t.left.right.Branch? {
        SplitCost(t.left.right, k);
        if t.left.right.right.Branch? {
          SplitCost(t.left.right.right, k);
        }
      }
      ZagLeftCost(t, k);
    } else if k > t.right.node.key {
      if t.right.right.Branch? {
        SplitCost(t.right.right, k);
      }
      ZigZigRightCost(t, k);
    } else {
      if t.right.left.Branch? {
        SplitCost(t.right.left, k);
        if t.right.left.left.Branch? {
          SplitCost(t.right.left.left, k);
        }
      }
      ZagRightCost(t, k);
    }
  }

  lemma LastTurnCost(t: Tree, k: int)
    requires t.Branch?
    requires k == t.node.key || (k < t.node.key && t.left.Nil?) || (k > t.node.key && t.right.Nil?)
    ensures Bounded(t, k)
  {
    assert Pow2(1) == 2;
    LastTurnBound(Pow2(Turns(t, k)), Size(t), Potential(t.left), Potential(t.right));
  }

  // ----- The loop computes Split in Turns turns -----

  /** What is left to do after some turns, with the trees taken apart so far. */
  ghost predicate Remains(whole: Tree, k: int, l: Edge, t: Tree, r: Edge, turns: nat)
    requires whole.Branch? && t.Branch?
  {
    && turns + Turns(t, k) == Turns(whole, k)
    && CloseLeft(l, Split(t, k).left) == Split(whole, k).left
    && Split(t, k).node == Split(whole, k).node
    && CloseRight(r, Split(t, k).right) == Split(whole, k).right
  }

  /** The loop has ended: the parts are those of `t` itself. */
  ghost predicate Ended(whole: Tree, k: int, l: Edge, t: Tree, r: Edge, turns: nat)
    requires whole.Branch? && t.Branch?
  {
    && turns == Turns(whole, k)
    && Split(whole, k) == Parts(CloseLeft(l, t.left), t.node, CloseRight(r, t.right))
  }

  lemma AllRemains(whole: Tree, k: int)
    requires whole.Branch?
    ensures Remains(whole, k, End, whole, End, 0)
  {
  }

  lemma NothingRemains(whole: Tree, k: int, l: Edge, t: Tree, r: Edge, turns: nat)
    requires whole.Branch? && t.Branch? && t.node.key == k && Remains(whole, k, l, t, r, turns)
    ensures Ended(whole, k, l, t, r, turns)
  {
  }

  lemma TurnLeftRemains(whole: Tree, k: int, l: Edge, t: Tree, r: Edge, turns: nat)
    requires whole.Branch? && t.Branch? && k < t.node.key && Remains(whole, k, l, t, r, turns)
    ensures var z := ZigLeftShape(t, k);
            if z.left.Nil? then Ended(whole, k, l, z, r, turns + 1)
            else Remains(whole, k, l, z.left, Link(r, z.node, z.right), turns + 1)
  {
  }

  lemma TurnRightRemains(whole: Tree, k: int, l: Edge, t: Tree, r: Edge, turns: nat)
    requires whole.Branch? && t.Branch? && k > t.node.key && Remains(whole, k, l, t, r, turns)
    ensures var z := ZigRightShape(t, k);
            if z.right.Nil? then Ended(whole, k, l, z, r, turns + 1)
            else Remains(whole, k, Link(l, z.node, z.left), z.right, r, turns + 1)
  {
  }

  // ----- Operations and runs of operations -----

  /** The turns of an operation on trees of at most `c - 1` nodes are paid for by `e` times the logarithm of
      `c` and by the fall of the potential. */
  ghost predicate Paid(turns: nat, before: Tree, after: Tree, c: nat, e: nat) {
    Pow2(turns) * Potential(after) <= Power(c, e) * Potential(before)
  }

  lemma PaidThen(m: nat, t: Tree, u: Tree, d: nat, n: nat, v: Tree, c: nat, e: nat)
    requires Paid(m, t, u, c, d) && Paid(n, u, v, c, e)
    ensures Paid(m + n, t, v, c, d + e)
  {
    Pow2Sum(m, n);
    PowerSum(c, d, e);
    Compose(Pow2(m), Potential(u), Power(c, d), Potential(t), Pow2(n), Potential(v), Power(c, e));
  }

  lemma Compose(a: nat, u: nat, x: nat, t: nat, b: nat, v: nat, y: nat)
    requires a * u <= x * t && b * v <= y * u
    ensures a * b * v <= x * y * t
  {
    MulMonotone(a, a, b * v, y * u);
    MulMonotone(y, y, a * u, x * t);
    assert a * (b * v) == a * b * v && a * (y * u) == y * (a * u) && y * (x * t) == x * y * t;
  }

  lemma PaidMore(turns: nat, t: Tree, u: Tree, c: nat, e: nat, f: nat)
    requires Paid(turns, t, u, c, e) && e <= f && c > 0
    ensures Paid(turns, t, u, c, f)
  {
    PowerAbove(c, e, f);
    MulMonotone(Power(c, e), Power(c, f), Potential(t), Potential(t));
  }

  lemma Power3(c: nat)
    ensures Power(c, 3) == Times(c, c, c) && Power(c, 1) == c && Power(c, 0) == 1
  {
    assert Power(c, 0) == 1;
    assert Power(c, 1) == c * Power(c, 0) == c;
    assert Power(c, 2) == c * Power(c, 1) == c * c;
    assert Power(c, 3) == c * Power(c, 2) == c * (c * c);
    Assoc(c, c, c);
  }

  lemma SplayPaid(t: Tree, k: int, c: nat)
    requires t.Branch? && Size(t) <= c
    ensures Size(Joined(Split(t, k))) == Size(t)
    ensures Paid(Turns(t, k), t, Joined(Split(t, k)), c, 3)
  {
    var p, s := Split(t, k), Size(t);
    SplitCost(t, k);
    SplitSize(t, k);
    Power3(c);
    SplayArithmetic(Pow2(Turns(t, k)), s, Potential(p.left), Potential(p.right), Potential(t), c);
  }

  lemma SplayArithmetic(turns: nat, s: nat, pl: nat, pr: nat, pt: nat, c: nat)
    requires Times(turns, pl, pr) <= Times(s, s, pt) && s <= c
    ensures turns * Times(s, pl, pr) <= Times(c, c, c) * pt
  {
    FirstOut(turns, s, pl, pr);
    LastOut(s, pt);
    Cubes(s, c);
    hide Times;
    MulMonotone(s, s, Times(turns, pl, pr), Times(s, s, pt));
    MulMonotone(Times(s, s, s), Times(c, c, c), pt, pt);
  }

  lemma FirstOut(a: nat, s: nat, b: nat, c: nat)
    ensures a * Times(s, b, c) == s * Times(a, b, c)
  {
  }

  lemma LastOut(s: nat, p: nat)
    ensures s * Times(s, s, p) == Times(s, s, s) * p
  {
  }

  lemma Cubes(s: nat, c: nat)
    requires s <= c
    ensures Times(s, s, s) <= Times(c, c, c)
  {
    MulMonotone(s, c, s, c);
    MulMonotone(s * s, c * c, s, c);
  }

  /** Splitting the root off to one side of a new root. */
  lemma NewRootPaid(t: Tree, elm: Node, below: bool, c: nat)
    requires t.Branch? && Size(t) + 1 <= c
    ensures var u := if below then Branch(t.left, elm, Branch(Nil, t.node, t.right))
                     else Branch(Branch(t.left, t.node, Nil), elm, t.right);
            Size(u) == Size(t) + 1 && Paid(0, t, u, c, 1)
  {
    hide Times;
    var pl, pr, s := Potential(t.left), Potential(t.right), Size(t);
    Power3(c);
    assert Potential(t) == Times(s, pl, pr);
    if below {
      var w := Branch(Nil, t.node, t.right);
      assert Size(w) == 1 + Size(t.right) && Potential(w) == Times(Size(w), 1, pr);
      assert Potential(Branch(t.left, elm, w)) == Times(s + 1, pl, Potential(w));
      NewRootArithmetic(s, Size(w), pl, pr, c);
    } else {
      var w := Branch(t.left, t.node, Nil);
      assert Size(w) == Size(t.left) + 1 && Potential(w) == Times(Size(w), pl, 1);
      assert Potential(Branch(w, elm, t.right)) == Times(s + 1, Potential(w), pr);
      NewRootArithmetic(s, Size(w), pl, pr, c);
    }
  }

  lemma NewRootArithmetic(s: nat, x: nat, pl: nat, pr: nat, c: nat)
    requires x <= s && s + 1 <= c
    ensures 1 * Times(s + 1, pl, Times(x, 1, pr)) <= c * Times(s, pl, pr)
    ensures 1 * Times(s + 1, Times(x, pl, 1), pr) <= c * Times(s, pl, pr)
  {
    NewRootFactors(s + 1, x, pl, pr);
    Chain(s + 1, c, x, s, pl * pr);
    NewRootFactors(c, s, pl, pr);
  }

  lemma NewRootFactors(c: nat, x: nat, pl: nat, pr: nat)
    ensures Times(c, pl, Times(x, 1, pr)) == c * x * (pl * pr)
    ensures Times(c, Times(x, pl, 1), pr) == c * x * (pl * pr)
    ensures c * Times(x, pl, pr) == c * x * (pl * pr)
  {
    assert Times(x, 1, pr) == x * pr && Times(x, pl, 1) == x * pl;
    Crossed(c, x, pl, pr);
  }

  lemma Crossed(c: nat, x: nat, pl: nat, pr: nat)
    ensures c * pl * (x * pr) == c * (x * pl) * pr == c * (x * pl * pr) == c * x * (pl * pr)
  {
  }

  lemma RootDroppedPaid(t: Tree, c: nat)
    requires t.Branch? && t.left.Nil?
    ensures Paid(0, t, t.right, c, 0)
  {
    Power3(c);
    DroppedArithmetic(Size(t), Potential(t.right));
  }

  lemma DroppedArithmetic(s: nat, p: nat)
    requires s > 0
    ensures 1 * p <= 1 * Times(s, 1, p)
  {
    MulMonotone(1, s, p, p);
  }

  /** Joining both sides again, after the left one was splayed. */
  lemma RejoinedPaid(t: Tree, left: Tree, turns: nat, c: nat)
    requires t.Branch? && left.Branch? && Size(left) == Size(t.left) && Size(t) <= c
    requires Paid(turns, t.left, left, c, 3)
    ensures Size(Branch(left.left, left.node, t.right)) < Size(t)
    ensures Paid(turns, t, Branch(left.left, left.node, t.right), c, 4)
  {
    hide Times;
    var u := Branch(left.left, left.node, t.right);
    assert Power(c, 4) == c * Power(c, 3);
    assert Potential(left) == Times(Size(left), Potential(left.left), Potential(left.right));
    assert Potential(u) == Times(Size(u), Potential(left.left), Potential(t.right));
    assert Potential(t) == Times(Size(t), Potential(t.left), Potential(t.right));
    RejoinArithmetic(Pow2(turns), Size(u), Potential(left.left), Potential(left.right), Potential(t.right), Size(left),
                     Potential(t.left), Power(c, 3), Size(t), c);
  }

  lemma RejoinArithmetic(turns: nat, su: nat, pl: nat, pd: nat, pr: nat, sl: nat, p: nat, x: nat, s: nat, c: nat)
    requires turns * Times(sl, pl, pd) <= x * p && su <= c && sl > 0 && pd > 0 && s > 0
    ensures turns * Times(su, pl, pr) <= c * x * Times(s, p, pr)
  {
    LessFactors(turns, sl, pl, pd);
    FirstOut(turns, su, pl, pr);
    Chain(su, c, turns * pl, x * p, pr);
    RejoinFactors(turns, su, pl, pr);
    MulMonotone(1, s, c * (x * p) * pr, c * (x * p) * pr);
    RejoinResult(c, x, s, p, pr);
  }

  lemma LessFactors(turns: nat, sl: nat, pl: nat, pd: nat)
    requires sl > 0 && pd > 0
    ensures turns * pl <= turns * Times(sl, pl, pd)
  {
    MulMonotone(1, sl, pl, pl);
    MulMonotone(sl * pl, sl * pl, 1, pd);
    MulMonotone(turns, turns, pl, Times(sl, pl, pd));
  }

  lemma RejoinFactors(turns: nat, su: nat, pl: nat, pr: nat)
    ensures su * Times(turns, pl, pr) == su * (turns * pl) * pr
  {
  }

  lemma RejoinResult(c: nat, x: nat, s: nat, p: nat, pr: nat)
    ensures c * x * Times(s, p, pr) == s * (c * (x * p) * pr)
  {
  }

  lemma BeyondLeft(t: Tree, r: Edge, k: int)
    requires Above(WholeOrder(End, t, r), k)
    ensures Above(InOrder(t), k) && (t.Branch? ==> k < t.node.key)
  {
    assert WholeOrder(End, t, r) == InOrder(t) + RightOrder(r);
    assert t.Branch? ==> t.node in InOrder(t);
  }

  lemma BeyondRight(l: Edge, t: Tree, k: int)
    requires Below(WholeOrder(l, t, End), k)
    ensures Below(InOrder(t), k) && (t.Branch? ==> k > t.node.key)
  {
    assert WholeOrder(l, t, End) == LeftOrder(l) + InOrder(t);
    assert t.Branch? ==> t.node in InOrder(t);
  }

  // ----- Runs of operations -----

  /** SPLAY_FIND, SPLAY_NEXT, SPLAY_MIN and SPLAY_MAX, SPLAY_INSERT and SPLAY_REMOVE. */
  datatype Request = Access(key: int) | After(key: int) | Extreme(val: int) | Add(elm: Node) | Drop(key: int)

  /** A key beyond the least or the greatest one; name_SPLAY_MINMAX splays as if by it. */
  function EndKey(t: Tree, val: int): int {
    var s := InOrder(t);
    if s == [] then 0 else if val < 0 then s[0].key - 1 else s[|s| - 1].key + 1
  }

  /** The tree after splaying by `k`. */
  function Splayed(t: Tree, k: int): Tree {
    if t.Nil? then t else Joined(Split(t, k))
  }

  function SplayTurns(t: Tree, k: int): nat {
    if t.Nil? then 0 else Turns(t, k)
  }

  /** The new element above a splayed tree, unless its key is there. */
  function WithRoot(t: Tree, elm: Node): Tree {
    if t.Nil? then Branch(Nil, elm, Nil)
    else if elm.key < t.node.key then Branch(t.left, elm, Branch(Nil, t.node, t.right))
    else if elm.key > t.node.key then Branch(Branch(t.left, t.node, Nil), elm, t.right)
    else t
  }

  function Rejoined(left: Tree, right: Tree): Tree {
    if left.Nil? then right else Branch(left.left, left.node, right)
  }

  function Served(t: Tree, q: Request): Tree {
    match q
    case Access(k) => Splayed(t, k)
    case After(k) => Splayed(t, k)
    case Extreme(val) => Splayed(t, EndKey(t, val))
    case Add(elm) => WithRoot(Splayed(t, elm.key), elm)
    case Drop(k) =>
      var s := Splayed(t, k);
      if s.Branch? && s.node.key == k then Rejoined(Splayed(s.left, k), s.right) else s
  }

  /** The turns of the splay loop that an operation takes. */
  function ServedTurns(t: Tree, q: Request): nat {
    match q
    case Access(k) => SplayTurns(t, k)
    case After(k) => SplayTurns(t, k)
    case Extreme(val) => SplayTurns(t, EndKey(t, val))
    case Add(elm) => SplayTurns(t, elm.key)
    case Drop(k) =>
      var s := Splayed(t, k);
      SplayTurns(t, k) + if s.Branch? && s.node.key == k then SplayTurns(s.left, k) else 0
  }

  function Fee(q: Request): nat {
    match q
    case Access(_) => 3
    case After(_) => 3
    case Extreme(_) => 3
    case Add(_) => 4
    case Drop(_) => 7
  }

  function Run(t: Tree, requests: seq<Request>): Tree
    decreases requests
  {
    if requests == [] then t else Run(Served(t, requests[0]), requests[1..])
  }

  function RunTurns(t: Tree, requests: seq<Request>): nat
    decreases requests
  {
    if requests == [] then 0 else ServedTurns(t, requests[0]) + RunTurns(Served(t, requests[0]), requests[1..])
  }

  function Adds(requests: seq<Request>): nat {
    if requests == [] then 0 else (if requests[0].Add? then 1 else 0) + Adds(requests[1..])
  }

  function Fees(requests: seq<Request>): (f: nat)
    ensures f <= 7 * |requests|
  {
    if requests == [] then 0 else Fee(requests[0]) + Fees(requests[1..])
  }

  lemma SplayedPaid(t: Tree, k: int, c: nat)
    requires Size(t) <= c
    ensures Size(Splayed(t, k)) == Size(t)
    ensures Paid(SplayTurns(t, k), t, Splayed(t, k), c, 3)
  {
    if t.Nil? {
      NothingPaid(t, c, 3);
    } else {
      SplayPaid(t, k, c);
    }
  }

  lemma NothingPaid(t: Tree, c: nat, e: nat)
    requires c > 0
    ensures Paid(0, t, t, c, e)
  {
    PowerAbove(c, 0, e);
    MulMonotone(1, Power(c, e), Potential(t), Potential(t));
  }

  lemma WithRootPaid(t: Tree, elm: Node, c: nat)
    requires Size(t) + 1 <= c
    ensures Size(WithRoot(t, elm)) <= Size(t) + 1
    ensures Paid(0, t, WithRoot(t, elm), c, 1)
  {
    if t.Nil? {
      Power3(c);
      assert Potential(Branch(Nil, elm, Nil)) == Times(2, 1, 1) == 2;
    } else if elm.key == t.node.key {
      NothingPaid(t, c, 1);
    } else {
      NewRootPaid(t, elm, elm.key < t.node.key, c);
    }
  }

  lemma DropPaid(t: Tree, k: int, c: nat)
    requires t.Branch? && Size(t) <= c
    ensures Size(Rejoined(Splayed(t.left, k), t.right)) < Size(t)
    ensures Paid(SplayTurns(t.left, k), t, Rejoined(Splayed(t.left, k), t.right), c, 4)
  {
    if t.left.Nil? {
      RootDroppedPaid(t, c);
      PaidMore(0, t, t.right, c, 0, 4);
    } else {
      SplayedPaid(t.left, k, c);
      RejoinedPaid(t, Splayed(t.left, k), SplayTurns(t.left, k), c);
    }
  }

  lemma ServedPaid(t: Tree, q: Request, c: nat)
    requires Size(t) + (if q.Add? then 1 else 0) <= c
    ensures Size(Served(t, q)) <= Size(t) + if q.Add? then 1 else 0
    ensures Paid(ServedTurns(t, q), t, Served(t, q), c, Fee(q))
  {
    hide Paid, Splayed, SplayTurns, WithRoot, Rejoined;
    match q
    case Access(k) =>
      SplayedPaid(t, k, c);
    case After(k) =>
      SplayedPaid(t, k, c);
    case Extreme(val) =>
      SplayedPaid(t, EndKey(t, val), c);
    case Add(elm) =>
      SplayedPaid(t, elm.key, c);
      WithRootPaid(Splayed(t, elm.key), elm, c);
      PaidThen(SplayTurns(t, elm.key), t, Splayed(t, elm.key), 3, 0, Served(t, q), c, 1);
    case Drop(k) =>
      var s := Splayed(t, k);
      SplayedPaid(t, k, c);
      if s.Branch? && s.node.key == k {
        DropPaid(s, k, c);
        PaidThen(SplayTurns(t, k), t, s, 3, SplayTurns(s.left, k), Served(t, q), c, 4);
      } else {
        PaidMore(SplayTurns(t, k), t, s, c, 3, 7);
      }
  }

  /** The fees of a run, and the fall of the potential, pay for all its turns. */
  lemma {:induction false} RunPaid(t: Tree, requests: seq<Request>, c: nat)
    requires Size(t) + Adds(requests) <= c
    ensures Paid(RunTurns(t, requests), t, Run(t, requests), c, Fees(requests))
    decreases requests
  {
    hide Paid;
    if requests == [] {
      NothingPaid(t, c, 0);
    } else {
      var u := Served(t, requests[0]);
      ServedPaid(t, requests[0], c);
      RunPaid(u, requests[1..], c);
      PaidThen(ServedTurns(t, requests[0]), t, u, Fee(requests[0]),
               RunTurns(u, requests[1..]), Run(t, requests), c, Fees(requests[1..]));
    }
  }

  lemma AtMost(turns: nat, t: Tree, u: Tree, c: nat, e: nat)
    requires Paid(turns, t, u, c, e)
    ensures Pow2(turns) <= Power(c, e) * Potential(t)
  {
    MulMonotone(Pow2(turns), Pow2(turns), 1, Potential(u));
  }

  /** The Balance Theorem: the operations on an initially empty tree take at most lg (n + 1) times the sum of
      their fees, with n the number of inserts.  The fees are at most 7 an operation. */
  lemma BalanceTheorem(requests: seq<Request>)
    ensures Pow2(RunTurns(Nil, requests)) <= Power(Adds(requests) + 1, Fees(requests))
  {
    hide Paid, Power, Pow2, Fees, Run, RunTurns;
    var c := Adds(requests) + 1;
    RunPaid(Nil, requests, c);
    AtMost(RunTurns(Nil, requests), Nil, Run(Nil, requests), c, Fees(requests));
    assert Power(c, Fees(requests)) * Potential(Nil) == Power(c, Fees(requests));
  }

  lemma {:induction false} PotentialBound(t: Tree, c: nat)
    requires Size(t) <= c
    ensures Potential(t) <= Power(c, Size(t) - 1)
  {
    if t.Branch? {
      var m, n := Size(t.left) - 1, Size(t.right) - 1;
      PotentialBound(t.left, c);
      PotentialBound(t.right, c);
      PowerSum(c, m, n);
      assert Power(c, Size(t) - 1) == c * Power(c, m + n);
      MulMonotone(Potential(t.left), Power(c, m), Potential(t.right), Power(c, n));
      MulMonotone(Size(t), c, Potential(t.left) * Potential(t.right), Power(c, m + n));
      Assoc(Size(t), Potential(t.left), Potential(t.right));
    }
  }

  /** Starting from any tree of `n` nodes, that many more logarithms are enough. */
  lemma PaidCost(turns: nat, t: Tree, u: Tree, c: nat, e: nat)
    requires Paid(turns, t, u, c, e) && Size(t) <= c
    ensures Pow2(turns) <= Power(c, e + Size(t) - 1)
  {
    hide Power, Pow2, Paid, Potential, Size;
    AtMost(turns, t, u, c, e);
    PotentialBound(t, c);
    MulMonotone(Power(c, e), Power(c, e), Potential(t), Power(c, Size(t) - 1));
    PowerSum(c, e, Size(t) - 1);
  }

  lemma AmortisedCost(t: Tree, requests: seq<Request>)
    ensures Pow2(RunTurns(t, requests)) <= Power(Size(t) + Adds(requests), Fees(requests) + Size(t) - 1)
  {
    hide Power, Pow2, Run, RunTurns, Adds, Fees, Paid, Potential, Size;
    var c := Size(t) + Adds(requests);
    RunPaid(t, requests, c);
    PaidCost(RunTurns(t, requests), t, Run(t, requests), c, Fees(requests));
  }
}
