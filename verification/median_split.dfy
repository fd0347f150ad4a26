/** Arithmetic of the median split both trees use: an input of n points puts
    index n/2 at the node, n/2 points on the left and n - n/2 - 1 on the
    right. Its height is floor(log2 n) + 1. */
module MedianSplit {

  function Pow2(k: nat): (r: nat)
    ensures r >= 1
  {
    if k == 0 then 1 else 2 * Pow2(k - 1)
  }

  /** floor(log2 n). */
  function Log2(n: nat): (k: nat)
    requires n >= 1
    ensures Pow2(k) <= n < 2 * Pow2(k)
  {
    if n < 2 then 0 else 1 + Log2(n / 2)
  }

  function Max(a: nat, b: nat): nat {
    if a >= b then a else b
  }

  /** Height of the tree the median split builds over n points. */
  function SplitHeight(n: nat): nat {
    if n == 0 then 0 else 1 + Max(SplitHeight(n / 2), SplitHeight(n - n / 2 - 1))
  }

  lemma {:induction false} Log2Monotone(m: nat, n: nat)
    requires 1 <= m <= n
    ensures Log2(m) <= Log2(n)
  {
    if m >= 2 {
      Log2Monotone(m / 2, n / 2);
    }
  }

  /** The median split reaches height exactly floor(log2 n) + 1. */
  lemma {:induction false} SplitHeightIsLog(n: nat)
    requires n >= 1
    ensures SplitHeight(n) == Log2(n) + 1
  {
    if n >= 2 {
      var l, r := n / 2, n - n / 2 - 1;
      SplitHeightIsLog(l);
      assert Log2(n) == Log2(l) + 1;
      if r >= 1 {
        SplitHeightIsLog(r);
        Log2Monotone(r, l);
      }
    }
  }
}
