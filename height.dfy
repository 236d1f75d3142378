/**
 * The height bound the balance invariants buy: a left-leaning tree with equal
 * black height on every path and n items is at most 2·log2(n+1) deep.
 */
module HeightBounds {
  import opened Nodes

  /** The number of nodes on the longest path from the root down. */
  function Height<T>(t: Tree<T>): nat {
    match t
    case Leaf => 0
    case Node(_, l, _, r) => 1 + (if Height(l) >= Height(r) then Height(l) else Height(r))
  }

  function Pow2(n: nat): (r: nat)
    ensures r >= 1
  {
    if n == 0 then 1 else 2 * Pow2(n - 1)
  }

  lemma {:induction false} Pow2Add(a: nat, b: nat)
    ensures Pow2(a + b) == Pow2(a) * Pow2(b)
  {
    if a > 0 {
      Pow2Add(a - 1, b);
    }
  }

  lemma {:induction false} Pow2Monotone(a: nat, b: nat)
    requires a <= b
    ensures Pow2(a) <= Pow2(b)
  {
    if a < b {
      Pow2Monotone(a, b - 1);
    }
  }

  /**
   * Every path meets BlackHeight(t) black nodes and no two reds in a row, so
   * it is at most twice as long, plus one for a red root.
   */
  lemma {:induction false} HeightByBlackHeight<T>(t: Tree<T>)
    requires LeftLeaning(t) && Balanced(t)
    ensures Height(t) <= 2 * BlackHeight(t) + (if IsRed(t) then 1 else 0)
  {
    if t.Node? {
      HeightByBlackHeight(t.left);
      HeightByBlackHeight(t.right);
    }
  }

  /** A tree of black height b has a complete binary tree of depth b inside it. */
  lemma {:induction false} SizeByBlackHeight<T>(t: Tree<T>)
    requires LeftLeaning(t) && Balanced(t)
    ensures Pow2(BlackHeight(t)) <= |Elems(t)| + 1
  {
    if t.Node? {
      SizeByBlackHeight(t.left);
      SizeByBlackHeight(t.right);
    }
  }

  /**
   * The depth bound: with a black root, 2^Height <= (n+1)^2, the integer form
   * of Height <= 2·log2(n+1).
   */
  lemma HeightBound<T>(t: Tree<T>)
    requires LeftLeaning(t) && Balanced(t) && !IsRed(t)
    ensures Pow2(Height(t)) <= (|Elems(t)| + 1) * (|Elems(t)| + 1)
  {
    HeightByBlackHeight(t);
    SizeByBlackHeight(t);
    var h, b, n := Height(t), BlackHeight(t), |Elems(t)| + 1;
    assert h <= 2 * b && Pow2(b) <= n;
    DoubleExponent(h, b, n);
  }

  /** If h <= 2b and 2^b <= n, then 2^h <= n^2. */
  lemma DoubleExponent(h: nat, b: nat, n: nat)
    requires h <= 2 * b && Pow2(b) <= n
    ensures Pow2(h) <= n * n
  {
    Pow2Monotone(h, b + b);
    Pow2Add(b, b);
    SquareMonotone(Pow2(b), n);
  }

  lemma SquareMonotone(a: nat, b: nat)
    requires a <= b
    ensures a * a <= b * b
  {
    MulMonotone(a, b, a);
    MulMonotone(a, b, b);
    assert b * a == a * b;
  }

  lemma {:induction false} MulMonotone(a: nat, b: nat, c: nat)
    requires a <= b
    ensures a * c <= b * c
  {
    if c > 0 {
      MulMonotone(a, b, c - 1);
      assert a * c == a * (c - 1) + a && b * c == b * (c - 1) + b;
    }
  }
}
