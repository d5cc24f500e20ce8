/** The masks with which numbers of some bits are written and read, and what the last possible one does to them. */
module BitMasks {
  import opened MachineWords
  import opened BitStrings

  /**
   * The mask 1 << (n - 1). The source computes it as an `int` and widens it: for 32 bits it is negative, and the bits
   * above are set as well. More than 32 bits are beyond what C++ defines.
   */
  function TopMask(n: nat): U64
    requires 0 < n <= 32
  {
    Pow2Words32();
    Pow2Grows(n - 1, 31);
    if n == 32 then W - Pow2(31) else Pow2(n - 1)
  }

  lemma Pow2Words32()
    ensures Pow2(31) == 0x8000_0000 && Pow2(32) == 0x1_0000_0000 && Pow2(33) == 0x2_0000_0000
  {
    BytePower();
    Pow2Add(8, 8);
    Pow2Add(16, 16);
    assert Pow2(32) == 2 * Pow2(31) && Pow2(33) == 2 * Pow2(32);
  }

  /** The mask after `i` shifts to the right. */
  function MaskAt(n: nat, i: nat): (m: int)
    requires 0 < n <= 32 && i < n
    ensures m >= 0
  {
    if n == 32 then
      Pow2Grows(31 - i, 64 - i);
      Pow2(64 - i) - Pow2(31 - i)
    else Pow2(n - 1 - i)
  }

  lemma MaskSteps(n: nat, i: nat)
    requires 0 < n <= 32 && i < n
    ensures MaskAt(n, 0) == TopMask(n)
    ensures i + 1 < n ==> MaskAt(n, i) / 2 == MaskAt(n, i + 1)
  {
    Pow2Words();
  }

  /** Is bit number `i` of the lowest `n` bits written as it is? */
  ghost predicate Legible(value: nat, n: nat, i: nat)
    requires 0 < n <= 32 && i < n
  {
    And(value, MaskAt(n, i)) != 0 <==> Digit(value, n - 1 - i)
  }

  ghost predicate AllLegible(value: nat, n: nat, i: nat)
    requires 0 < n <= 32 && i <= n
  {
    i == 0 || (AllLegible(value, n, i - 1) && Legible(value, n, i - 1))
  }

  lemma {:induction false} SmallLegible(value: nat, n: nat, i: nat)
    requires 0 < n <= 31 && i <= n
    ensures AllLegible(value, n, i)
  {
    if i > 0 {
      SmallLegible(value, n, i - 1);
      AndBit(value, n - i);
    }
  }

  /** The numbers that 32 bits show: ones from the lowest bit up, and then nothing. */
  ghost predicate OnlyOnes(value: nat) {
    value % 0x1_0000_0000 == 0xFFFF_FFFF || exists m :: Filled(value, m, 32)
  }

  ghost predicate Filled(value: nat, m: nat, n: nat) {
    m <= n && value == Pow2(m) - 1
  }

  /** Only masks below 2^k meet the lowest k bits. */
  lemma {:induction false} AndLow(x: nat, m: nat, k: nat)
    requires m < Pow2(k)
    ensures And(x, m) == And(x % Pow2(k), m)
  {
    if k > 0 {
      AndLow(x / 2, m / 2, k - 1);
      ModOfHalf(x, Pow2(k - 1));
      AndHalves(x, m);
      AndHalves(x % Pow2(k), m);
    } else {
      AndNothing(x);
      AndNothing(x % 1);
    }
  }

  lemma {:induction false} AndNothing(x: nat)
    ensures And(x, 0) == 0
  {
    if x > 0 {
      AndHalves(x, 0);
      AndNothing(x / 2);
    }
  }

  /** The mask of 33 ones, with its lowest one at bit k. */
  lemma WideMask(value: nat, k: nat)
    requires k < 32
    ensures Pow2(k) <= Pow2(k + 33)
    ensures And(value, Pow2(k + 33) - Pow2(k)) != 0 <==> value / Pow2(k) % Pow2(33) != 0
  {
    hide And, Pow2;
    var a, q := value % Pow2(k + 33), Pow2(k);
    Pow2Below(k, k + 33);
    AndLow(value, Pow2(k + 33) - q, k + 33);
    AndNotMask(a, k, k + 33);
    Pow2Add(k, 33);
    QuotientOfRemainder(value, q, Pow2(33));
    SameIfNone(a, q);
  }

  lemma SameIfNone(a: int, q: int)
    requires q > 0
    ensures a - a % q != 0 <==> a / q != 0
  {
    WholePart(a, q);
    DivUnique(0, q, 0, 0);
    if a / q == 0 {
      assert a == a / q * q + a % q;
    }
  }

  lemma QuotientOfRemainder(x: int, q: int, p: int)
    requires q > 0 && p > 0
    ensures q * p > 0 && x % (q * p) / q == x / q % p
  {
    var y := x / q;
    var c, d := y / p, y % p;
    Distribute(c, p, d, q);
    Scaled(d, p, q);
    assert x == (c * p + d) * q + x % q;
    assert c * (q * p) == c * (p * q);
    DivUnique(x, q * p, c, d * q + x % q);
    DivUnique(d * q + x % q, q, d, x % q);
  }

  /** The lowest `n` bits are written as they are. */
  ghost predicate GoodFrom(v: nat, n: nat) {
    n == 0 || ((v % 2 == 1 || v % Pow2(33) == 0) && GoodFrom(v / 2, n - 1))
  }

  lemma {:induction false} LegibleIsGood(value: nat, i: nat)
    requires i <= 32
    ensures value / Pow2(32 - i) >= 0 && (AllLegible(value, 32, i) <==> GoodFrom(value / Pow2(32 - i), i))
  {
    hide And, Pow2;
    Pow2Quotient(value, 32 - i);
    if i > 0 {
      var k := 32 - i;
      LegibleIsGood(value, i - 1);
      WideMask(value, k);
      OddIsNotMultiple(value / Pow2(k));
      DivTwice(value, Pow2(k), 2);
      assert Pow2(k + 1) == Pow2(k) * 2 by { Pow2Next(k); }
    }
  }

  lemma Pow2Next(k: nat)
    ensures Pow2(k + 1) == 2 * Pow2(k)
  {
  }

  lemma OddIsNotMultiple(v: nat)
    ensures v % 2 == 1 ==> v % Pow2(33) != 0
  {
    Pow2Words32();
  }

  lemma {:induction false} GoodIsOnes(v: nat, n: nat)
    requires n <= 32 && v < Pow2(32 + n)
    ensures GoodFrom(v, n) <==> OnesUpTo(v, n)
  {
    if n == 0 {
      DivUnique(v, 1, v, 0);
    } else {
      GoodIsOnes(v / 2, n - 1);
      ModOfHalf(v, Pow2(n - 1));
      if v % 2 == 1 {
        OddOnes(v, n);
      } else {
        EvenOnes(v, n);
        if v == 0 {
          assert Filled(0, 0, n) && Filled(0, 0, n - 1);
        } else if v % Pow2(33) == 0 {
          Pow2Words32();
          if n > 1 {
            EvenOnes(v / 2, n - 1);
          }
        }
      }
    }
  }

  ghost predicate OnesUpTo(v: nat, n: nat) {
    v % Pow2(n) == Pow2(n) - 1 || exists m :: Filled(v, m, n)
  }

  lemma OddOnes(v: nat, n: nat)
    requires n > 0 && v % 2 == 1
    ensures OnesUpTo(v, n) <==> OnesUpTo(v / 2, n - 1)
  {
    ModOfHalf(v, Pow2(n - 1));
    var w, l := v / 2, n - 1;
    if m: nat :| Filled(v, m, n) {
      assert Filled(w, m - 1, l);
    }
    if m: nat :| Filled(w, m, l) {
      assert Filled(v, m + 1, n);
    }
  }

  lemma EvenOnes(v: nat, n: nat)
    requires n > 0 && v % 2 == 0
    ensures OnesUpTo(v, n) <==> v == 0
  {
    ModOfHalf(v, Pow2(n - 1));
    if v == 0 {
      assert Filled(v, 0, n);
    }
  }

  /** As a number of 32 bits, exactly these are written as they are. */
  lemma WideLegible(value: U64)
    ensures AllLegible(value, 32, 32) <==> OnlyOnes(value)
  {
    Pow2Words();
    Pow2Words32();
    DivUnique(value, 1, value, 0);
    LegibleIsGood(value, 32);
    GoodIsOnes(value, 32);
  }

  /** For instance, two is not written as it is. */
  lemma TwoIllegible()
    ensures !AllLegible(2, 32, 32)
  {
    forall m: nat ensures Pow2(m) != 3 {
      assert m > 0 ==> Pow2(m) == 2 * Pow2(m - 1);
    }
    WideLegible(2);
  }

  /** What is written right may still be read wrong; both are right for zero alone. */
  lemma OnlyZero(value: U64)
    ensures OnlyOnes(value) && value % Pow2(32) == 0 <==> value == 0
  {
    Pow2Words32();
    if value == 0 {
      assert Filled(value, 0, 32);
    } else if m: nat :| Filled(value, m, 32) {
      Pow2Grows(m, 32);
      DivUnique(value, Pow2(32), 0, value);
    }
  }
}
