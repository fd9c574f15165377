// How high a red-black tree can be.
module RbHeight {
  import opened RbNodes
  import opened RbBalance

  function Max(a: nat, b: nat): nat {
    if a < b then b else a
  }

  function Height(t: Tree): nat {
    if t.Leaf? then 0 else 1 + Max(Height(t.left), Height(t.right))
  }

  function Pow2(n: nat): nat {
    if n == 0 then 1 else 2 * Pow2(n - 1)
  }

  lemma {:induction false} Pow2Sum(m: nat, n: nat)
    ensures Pow2(m + n) == Pow2(m) * Pow2(n)
  {
    if m > 0 {
      Pow2Sum(m - 1, n);
    }
  }

  lemma {:induction false} Pow2Monotone(m: nat, n: nat)
    requires m <= n
    ensures 1 <= Pow2(m) <= Pow2(n)
    decreases n
  {
    if m < n {
      Pow2Monotone(m, n - 1);
    } else if n > 0 {
      Pow2Monotone(n - 1, n - 1);
    }
  }

  lemma {:induction false} Populated(t: Tree)
    requires Balanced(t)
    ensures Pow2(BlackHeight(t)) <= |Inorder(t)| + 1
  {
    if t.Bin? {
      Populated(t.left);
      Populated(t.right);
    }
  }

  lemma {:induction false} RedsAlternate(t: Tree)
    requires Balanced(t)
    ensures Height(t) <= 2 * BlackHeight(t) + (if IsRed(t) then 1 else 0)
  {
    if t.Bin? {
      RedsAlternate(t.left);
      RedsAlternate(t.right);
    }
  }

  lemma SquareMonotone(a: nat, b: nat)
    requires a <= b
    ensures a * a <= b * b
  {
    assert a * a <= a * b <= b * b;
  }

  // Height <= 2 * log2(n + 1), without the logarithm.
  lemma HeightBound(t: Tree)
    requires RedBlack(t)
    ensures Pow2(Height(t)) <= (|Inorder(t)| + 1) * (|Inorder(t)| + 1)
  {
    var b, n := BlackHeight(t), |Inorder(t)| + 1;
    Populated(t);
    RedsAlternate(t);
    Pow2Monotone(Height(t), b + b);
    Pow2Sum(b, b);
    SquareMonotone(Pow2(b), n);
  }
}
