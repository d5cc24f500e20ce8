/** Binomial coefficients by products and quotients that stay whole. */
module Binomial {
  import MachineWords

  /** Pascal's triangle. */
  function Choose(n: nat, k: nat): nat {
    if k == 0 then 1 else if n == 0 then 0 else Choose(n - 1, k - 1) + Choose(n - 1, k)
  }

  lemma {:induction false} ChooseTooMany(n: nat, k: nat)
    requires k > n
    ensures Choose(n, k) == 0
  {
    if n > 0 {
      ChooseTooMany(n - 1, k - 1);
      ChooseTooMany(n - 1, k);
    }
  }

  lemma {:induction false} ChooseAll(n: nat)
    ensures Choose(n, n) == 1
  {
    if n > 0 {
      ChooseAll(n - 1);
      ChooseTooMany(n - 1, n);
    }
  }

  lemma {:induction false} Symmetric(n: nat, k: nat)
    requires k <= n
    ensures Choose(n, k) == Choose(n, n - k)
  {
    if k == 0 || k == n {
      ChooseAll(n);
    } else {
      Symmetric(n - 1, k - 1);
      Symmetric(n - 1, k);
    }
  }

  /** Choosing k and marking one of them is marking one and choosing the others. */
  lemma {:induction false} Marked(n: nat, k: nat)
    requires 0 < k && 0 < n
    ensures k * Choose(n, k) == n * Choose(n - 1, k - 1)
  {
    if n == 1 {
      if k > 1 {
        ChooseTooMany(1, k);
        ChooseTooMany(0, k - 1);
      }
    } else {
      Marked(n - 1, k);
      if k > 1 {
        Marked(n - 1, k - 1);
      }
      var a, b := Choose(n - 2, k - 1), if k > 1 then Choose(n - 2, k - 2) else 0;
      assert Choose(n - 1, k - 1) == b + a || k == 1;
      Collect(n, k, a, b, Choose(n - 1, k - 1), Choose(n - 1, k));
    }
  }

  lemma Collect(n: nat, k: nat, a: nat, b: nat, x: nat, y: nat)
    requires k > 0 && n > 1 && k * y == (n - 1) * a && (k - 1) * x == (n - 1) * b
    requires x == b + a
    ensures k * (x + y) == n * x
  {
    assert k * (x + y) == (k - 1) * x + x + k * y;
    assert (n - 1) * b + (n - 1) * a == (n - 1) * (b + a);
    assert n * x == (n - 1) * x + x;
  }

  /**
   * The source's loop, with whole numbers in place of floating point: every quotient is whole. For 0 <= k the result
   * is the binomial coefficient; for a negative k up to n it is 1, where the coefficient would be 0.
   */
  method NChooseK(n: int, k: int) returns (res: int)
    ensures n < k ==> res == 0
    ensures 0 <= k <= n ==> res == Choose(n, k)
    ensures k < 0 && k <= n ==> res == 1
  {
    if n < k {
      return 0;
    }
    var iK := if 2 * k > n then n - k else k;
    var nSubK := n - iK;
    var i := 1;
    res := if i > iK then 1 else nSubK + i;
    if 0 <= k {
      Symmetric(n, k);
      if iK >= 1 {
        One(nSubK + 1);
      }
    }
    i := i + 1;
    while i <= iK
      invariant 2 <= i && (0 <= k && 1 <= iK ==> i <= iK + 1 && res == Choose(nSubK + i - 1, i - 1))
      invariant iK < 1 ==> res == 1
    {
      res := Step(res, nSubK, i);
      i := i + 1;
    }
  }

  /** One factor of the product, and a quotient without remainder. */
  method Step(before: int, m: int, i: int) returns (res: int)
    requires 2 <= i && 0 <= m && before == Choose(m + i - 1, i - 1)
    ensures res == Choose(m + i, i) && before * (m + i) % i == 0 && i * res == before * (m + i)
  {
    Marked(m + i, i);
    Whole(i, Choose(m + i, i));
    res := before * (m + i) / i;
  }

  lemma One(n: nat)
    requires n > 0
    ensures Choose(n, 1) == n
  {
    if n > 1 {
      One(n - 1);
    }
  }

  lemma Whole(i: int, x: int)
    requires i > 0
    ensures i * x % i == 0 && i * x / i == x
  {
    MachineWords.DivUnique(i * x, i, x, 0);
  }
}
