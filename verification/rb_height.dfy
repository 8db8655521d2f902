/**
 The height bound claimed at the top of the red-black part of tree.h (lines 46-54).
 */
module RbHeight {
  import opened Powers
  import opened RbShape

  function Max(a: nat, b: nat): nat {
    if a < b then b else a
  }

  /** The number of nodes on the longest way down. */
  function Height(t: Tree): nat {
    if t.Nil? then 0 else 1 + Max(Height(t.left), Height(t.right))
  }

  /** Black height `h` needs 2^h - 1 nodes and allows at most 2h levels below a black root. */
  lemma {:induction false} BlackHeightBounds(t: Tree, h: nat)
    requires Good(t, h)
    ensures Pow2(h) <= |InOrder(t)| + 1
    ensures Height(t) <= 2 * h + if IsRed(t) then 1 else 0
  {
    if t.Branch? {
      BlackHeightBounds(t.left, if t.red then h else h - 1);
      BlackHeightBounds(t.right, if t.red then h else h - 1);
    }
  }

  /** The maximum height of a red-black tree with n nodes is 2 lg (n + 1), that is 2^height <= (n + 1)^2. */
  lemma HeightBound(t: Tree)
    requires RedBlack(t)
    ensures Pow2(Height(t)) <= (|InOrder(t)| + 1) * (|InOrder(t)| + 1)
  {
    var h: nat :| Good(t, h);
    var n := |InOrder(t)| + 1;
    BlackHeightBounds(t, h);
    Pow2Monotone(Height(t), h + h);
    Pow2Sum(h, h);
    MulMonotone(Pow2(h), n, Pow2(h), n);
  }

  /** A place in a tree is not deeper than the tree is high. */
  lemma {:induction false} DepthHeight(p: Path, t: Tree)
    ensures Depth(p) + Height(t) <= Height(Plug(p, t))
    decreases p
  {
    if p.Step? {
      DepthHeight(p.up, Join(p.isLeft, p.node, p.red, t, p.sibling));
    }
  }

  lemma {:induction false} AppendDepth(p: Path, q: Path)
    ensures Depth(Append(p, q)) == Depth(p) + Depth(q)
  {
    if p.Step? {
      AppendDepth(p.up, q);
    }
  }

  /** Every operation is bounded as O(lg n): its loops take at most 4 lg (n + 1) turns, for they take at most
      twice the height. */
  lemma OperationBound(t: Tree, turns: nat)
    requires RedBlack(t) && turns <= 2 * Height(t)
    ensures Pow2(turns) <= Power(|InOrder(t)| + 1, 4)
  {
    var n, h := |InOrder(t)| + 1, Height(t);
    HeightBound(t);
    Pow2Monotone(turns, h + h);
    Pow2Sum(h, h);
    MulMonotone(Pow2(h), n * n, Pow2(h), n * n);
    Fourth(n);
  }

  lemma Fourth(n: nat)
    ensures Power(n, 4) == n * n * (n * n)
  {
    assert Power(n, 0) == 1 && Power(n, 1) == n * Power(n, 0) == n;
    assert Power(n, 2) == n * Power(n, 1) == n * n;
    PowerSum(n, 2, 2);
  }

  lemma {:induction false} NodeCount(t: Tree)
    requires Distinct(t)
    ensures |InOrder(t)| == |Nodes(t)|
  {
    if t.Branch? {
      NodeCount(t.left);
      NodeCount(t.right);
    }
  }
}
