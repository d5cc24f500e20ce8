/** Machine words: powers of two, bitwise operators on natural numbers, and wrap-around. */
module MachineWords {

  const W := 0x1_0000_0000_0000_0000
  const H := 0x8000_0000_0000_0000
  const M := W * W

  type U64 = x: int | 0 <= x < W
  type S64 = x: int | -H <= x < H witness 0

  /** Conversion to 64 bits, unsigned and signed, and to 128 bits signed. */
  function U(x: int): U64 { x % W }

  function S(x: int): S64 { (x + H) % W - H }

  function Wrap(x: int): int { (x + H * W) % M - H * W }

  // ---------- division ----------

  lemma MultipleGrows(k: int, d: int)
    requires d > 0
    ensures k >= 1 ==> k * d >= d
    ensures k <= -1 ==> k * d <= -d
  {
    if k >= 1 {
      assert (k - 1) * d >= 0;
    } else if k <= -1 {
      assert (-k - 1) * d >= 0;
    }
  }

  lemma DivUnique(x: int, d: int, q: int, r: int)
    requires d > 0 && x == q * d + r && 0 <= r < d
    ensures x / d == q && x % d == r
  {
    MultipleGrows(q - x / d, d);
    assert (q - x / d) * d == x % d - r;
  }

  lemma ModAtMost(x: nat, d: int)
    requires d > 0
    ensures 0 <= x % d <= x
  {
    if x < d {
      DivUnique(x, d, 0, x);
    }
  }

  lemma ModShift(x: int, k: int, d: int)
    requires d > 0
    ensures (x + k * d) % d == x % d && (x + k * d) / d == x / d + k
  {
    assert x + k * d == (x / d + k) * d + x % d;
    DivUnique(x + k * d, d, x / d + k, x % d);
  }

  lemma DivTwice(x: int, a: int, b: int)
    requires a > 0 && b > 0
    ensures a * b > 0 && x / a / b == x / (a * b)
  {
    var y := x / a;
    var q, c := y / b, y % b;
    Distribute(q, b, c, a);
    MultipleGrows(b - c, a);
    Distribute(b, 1, -c, a);
    DivUnique(x, a * b, q, c * a + x % a);
  }

  lemma Distribute(q: int, b: int, c: int, a: int)
    ensures (q * b + c) * a == q * (a * b) + c * a
  {
  }

  lemma DivBelow(x: int, p: int, q: int)
    requires p > 0 && 0 <= x < p * q
    ensures 0 <= x / p < q
  {
    var k := x / p;
    assert x == k * p + x % p;
    Ordered(k, q, p);
    Ordered(-1, k, p);
  }

  lemma Ordered(a: int, b: int, p: int)
    requires p > 0
    ensures a >= b <==> a * p >= b * p
  {
    MultipleGrows(a - b, p);
    assert (a - b) * p == a * p - b * p;
  }

  lemma Scaled(x: int, p: int, q: int)
    requires 0 <= x < p && q > 0
    ensures 0 <= x * q <= p * q - q
  {
    MultipleGrows(p - x, q);
    assert (p - x) * q == p * q - x * q;
    MultipleGrows(x, q);
  }

  lemma Grows(k: int, p: int)
    requires k >= 0 && p > 0
    ensures k * p >= k
  {
    assert k * (p - 1) >= 0;
  }

  lemma WholePart(x: int, d: int)
    requires d > 0
    ensures (x - x % d) / d == x / d
  {
    DivUnique(x - x % d, d, x / d, 0);
  }

  /** Numbers that differ by a multiple of `d` have the same remainder. */
  lemma ModOfMultiple(x: int, a: int, b: int)
    requires a > 0 && b > 0
    ensures a * b > 0 && x % (a * b) % a == x % a
  {
    var k := x / (a * b);
    assert x == k * (a * b) + x % (a * b);
    assert k * (a * b) == (k * b) * a;
    ModShift(x % (a * b), k * b, a);
  }

  // ---------- wrap-around ----------

  lemma WrapShift(x: int, k: int)
    ensures Wrap(x + k * M) == Wrap(x)
  {
    ModShift(x + H * W, k, M);
  }

  /** Numbers that differ by a multiple of the modulus, and only those, are stored alike. */
  lemma WrapSame(x: int, y: int)
    ensures Wrap(x) == Wrap(y) <==> (x - y) % M == 0
  {
    var j := Wrapped(x);
    var k := Wrapped(y);
    hide Wrap;
    var q := (x - y) / M;
    assert x - y == q * M + (x - y) % M;
    WrapShift(y, q);
    if Wrap(x) == Wrap(y) {
      ModShift(0, j - k, M);
      assert x - y == 0 + (j - k) * M;
    }
  }

  /** Wrapping takes away a multiple of the modulus. */
  lemma Wrapped(x: int) returns (k: int)
    ensures x == Wrap(x) + k * M && -H * W <= Wrap(x) < H * W
  {
    k := (x + H * W) / M;
  }

  lemma WrapAdd(x: int, y: int)
    ensures Wrap(Wrap(x) + y) == Wrap(x + y) == Wrap(x + Wrap(y)) == Wrap(Wrap(x) + Wrap(y))
  {
    var j := Wrapped(x);
    var k := Wrapped(y);
    WrapShift(Wrap(x) + y, j);
    WrapShift(x + Wrap(y), k);
    WrapShift(Wrap(x) + Wrap(y), j);
    assert Wrap(x) + Wrap(y) + j * M == x + Wrap(y);
  }

  lemma WrapNegate(x: int)
    ensures Wrap(-Wrap(x)) == Wrap(-x)
  {
    var k := Wrapped(x);
    WrapShift(-Wrap(x), -k);
    assert -Wrap(x) + (-k) * M == -x;
  }

  lemma WrapTimes(x: int, y: int)
    ensures Wrap(Wrap(x) * y) == Wrap(x * y)
  {
    var k := Wrapped(x);
    WrapShift(Wrap(x) * y, k * y);
    assert Wrap(x) * y + (k * y) * M == (Wrap(x) + k * M) * y;
  }

  lemma WrapFits(x: int)
    requires -H * W <= x < H * W
    ensures Wrap(x) == x
  {
    DivUnique(x + H * W, M, 0, x + H * W);
  }

  /** The words of a wrapped number. */
  lemma WrapWords(a: int, b: int)
    requires 0 <= b < W
    ensures Wrap(a * W + b) == S(a) * W + b
  {
    var k := (a + H) / W;
    assert a == S(a) + k * W;
    WrapShift(S(a) * W + b, k);
    WrapFits(S(a) * W + b);
    assert a * W + b == S(a) * W + b + k * M;
  }

  lemma SOfSum(x: int, y: int)
    ensures S(S(x) + y) == S(x + y)
  {
    ModShift(S(x) + y + H, (x + H) / W, W);
  }

  lemma SOfU(x: int)
    ensures S(U(x)) == S(x) && U(S(x)) == U(x)
  {
    ModShift(U(x) + H, x / W, W);
    ModShift(S(x), (x + H) / W, W);
  }

  // ---------- powers of two ----------

  function Pow2(n: nat): (p: int)
    ensures p > 0
  {
    if n == 0 then 1 else 2 * Pow2(n - 1)
  }

  lemma {:induction false} Pow2Add(m: nat, n: nat)
    ensures Pow2(m + n) == Pow2(m) * Pow2(n)
  {
    if m != 0 {
      Pow2Add(m - 1, n);
      assert 2 * Pow2(m - 1 + n) == 2 * Pow2(m - 1) * Pow2(n);
    }
  }

  lemma Pow2Words()
    ensures Pow2(63) == H && Pow2(64) == W && Pow2(127) == H * W && Pow2(128) == M
  {
    assert Pow2(4) == 16;
    Pow2Add(4, 4);
    Pow2Add(8, 8);
    Pow2Add(16, 16);
    Pow2Add(32, 32);
    Pow2Add(64, 64);
    assert Pow2(64) == 2 * Pow2(63) && Pow2(128) == 2 * Pow2(127);
  }

  lemma {:induction false} Pow2Grows(m: nat, n: nat)
    requires m <= n
    ensures Pow2(m) <= Pow2(n)
  {
    if m < n {
      Pow2Grows(m, n - 1);
    }
  }

  lemma Pow2Below(m: nat, n: nat)
    requires m < n
    ensures Pow2(m) < Pow2(n)
  {
    Pow2Grows(m + 1, n);
  }

  // ---------- bitwise operators ----------

  function Or(a: nat, b: nat): nat {
    if a == 0 then b else if b == 0 then a
    else 2 * Or(a / 2, b / 2) + if a % 2 == 1 || b % 2 == 1 then 1 else 0
  }

  function And(a: nat, b: nat): nat {
    if a == 0 || b == 0 then 0
    else 2 * And(a / 2, b / 2) + if a % 2 == 1 && b % 2 == 1 then 1 else 0
  }

  function Xor(a: nat, b: nat): nat {
    if a == 0 then b else if b == 0 then a
    else 2 * Xor(a / 2, b / 2) + if (a % 2 == 1) != (b % 2 == 1) then 1 else 0
  }

  /** Binary digit `n` of a number, in two's complement if it is negative. */
  ghost predicate Digit(x: int, n: nat) { x / Pow2(n) % 2 == 1 }

  lemma DigitOfHalf(x: int, n: nat)
    ensures Digit(x, n + 1) == Digit(x / 2, n)
  {
    DivTwice(x, 2, Pow2(n));
  }

  lemma DigitOfZero(n: nat)
    ensures !Digit(0, n)
  {
    DivUnique(0, Pow2(n), 0, 0);
  }

  lemma {:induction false} OrDigits(a: nat, b: nat, n: nat)
    ensures Digit(Or(a, b), n) == (Digit(a, n) || Digit(b, n))
  {
    DigitOfZero(n);
    if a != 0 && b != 0 {
      OrHalves(a, b);
      if n > 0 {
        hide *;
        OrDigits(a / 2, b / 2, n - 1);
        DigitOfHalf(a, n - 1);
        DigitOfHalf(b, n - 1);
        DigitOfHalf(Or(a, b), n - 1);
      } else {
        assert Pow2(0) == 1;
      }
    }
  }

  lemma {:induction false} AndDigits(a: nat, b: nat, n: nat)
    ensures Digit(And(a, b), n) == (Digit(a, n) && Digit(b, n))
  {
    DigitOfZero(n);
    if a != 0 && b != 0 {
      AndHalves(a, b);
      if n > 0 {
        hide *;
        AndDigits(a / 2, b / 2, n - 1);
        DigitOfHalf(a, n - 1);
        DigitOfHalf(b, n - 1);
        DigitOfHalf(And(a, b), n - 1);
      } else {
        assert Pow2(0) == 1;
      }
    }
  }

  lemma {:induction false} XorDigits(a: nat, b: nat, n: nat)
    ensures Digit(Xor(a, b), n) == (Digit(a, n) != Digit(b, n))
  {
    DigitOfZero(n);
    if a != 0 && b != 0 {
      XorHalves(a, b);
      if n > 0 {
        hide *;
        XorDigits(a / 2, b / 2, n - 1);
        DigitOfHalf(a, n - 1);
        DigitOfHalf(b, n - 1);
        DigitOfHalf(Xor(a, b), n - 1);
      } else {
        assert Pow2(0) == 1;
      }
    }
  }

  lemma OrHalves(a: nat, b: nat)
    ensures Or(a, b) / 2 == Or(a / 2, b / 2) && Or(a, b) % 2 == (if a % 2 == 1 || b % 2 == 1 then 1 else 0)
  {
  }

  lemma AndHalves(a: nat, b: nat)
    ensures And(a, b) / 2 == And(a / 2, b / 2) && And(a, b) % 2 == (if a % 2 == 1 && b % 2 == 1 then 1 else 0)
  {
  }

  lemma XorHalves(a: nat, b: nat)
    ensures Xor(a, b) / 2 == Xor(a / 2, b / 2) && Xor(a, b) % 2 == (if (a % 2 == 1) != (b % 2 == 1) then 1 else 0)
  {
  }

  /** Bitwise operators stay within any number of bits. */
  lemma {:induction false} BitwiseFits(a: nat, b: nat, n: nat)
    requires a < Pow2(n) && b < Pow2(n)
    ensures Or(a, b) < Pow2(n) && And(a, b) < Pow2(n) && Xor(a, b) < Pow2(n)
  {
    if a != 0 && b != 0 {
      BitwiseFits(a / 2, b / 2, n - 1);
    }
  }

  /** Or adds up numbers without common binary digits: here, low digits and multiples of a power of two. */
  lemma {:induction false} OrIsSum(a: nat, k: nat, n: nat)
    requires a < Pow2(n)
    ensures k * Pow2(n) >= 0 && Or(a, k * Pow2(n)) == a + k * Pow2(n) == Or(k * Pow2(n), a)
  {
    if n == 0 || k == 0 {
      assert k * Pow2(n) == if k == 0 then 0 else k;
    } else {
      OrIsSum(a / 2, k, n - 1);
      Double(k, Pow2(n - 1));
      OrEven(a, k * Pow2(n - 1));
    }
  }

  lemma Double(k: int, p: int)
    ensures k * (2 * p) == 2 * (k * p)
  {
  }

  lemma OrEven(a: nat, c: nat)
    ensures Or(a, 2 * c) == 2 * Or(a / 2, c) + a % 2 && Or(2 * c, a) == 2 * Or(c, a / 2) + a % 2
  {
    OrHalves(a, 2 * c);
    OrHalves(2 * c, a);
  }

  /** And with a mask of ones takes the remainder. */
  lemma {:induction false} AndMask(a: nat, n: nat)
    ensures And(a, Pow2(n) - 1) == a % Pow2(n)
  {
    var p := Pow2(n);
    if n == 0 || a == 0 {
      DivUnique(a, p, if n == 0 then a else 0, 0);
    } else {
      AndMask(a / 2, n - 1);
      AndHalves(a, p - 1);
      assert (p - 1) / 2 == Pow2(n - 1) - 1 && (p - 1) % 2 == 1;
      ModOfHalf(a, Pow2(n - 1));
    }
  }

  /** And with the complement of a mask takes the rest. */
  lemma {:induction false} AndNotMask(a: nat, n: nat, m: nat)
    requires n <= m && a < Pow2(m)
    ensures Pow2(n) <= Pow2(m) && And(a, Pow2(m) - Pow2(n)) == a - a % Pow2(n)
  {
    Pow2Grows(n, m);
    if a == 0 {
      DivUnique(a, Pow2(n), 0, 0);
    } else if n == 0 {
      AndMask(a, m);
      DivUnique(a, Pow2(m), 0, a);
    } else if n == m {
      DivUnique(a, Pow2(n), 0, a);
    } else {
      AndNotMask(a / 2, n - 1, m - 1);
      Pow2Grows(n - 1, m - 1);
      AndHalves(a, Pow2(m) - Pow2(n));
      ModOfHalf(a, Pow2(n - 1));
    }
  }

  lemma ModOfHalf(a: nat, q: int)
    requires q > 0
    ensures a % (2 * q) == 2 * (a / 2 % q) + a % 2
  {
    var h := a / 2;
    assert h == h / q * q + h % q;
    Double(h / q, q);
    DivUnique(a, 2 * q, h / q, 2 * (h % q) + a % 2);
  }

  // ---------- single digits ----------

  /** The digits below position `m` do not see multiples of 2^m. */
  lemma DigitMod(x: int, k: int, m: nat, n: nat)
    requires n < m
    ensures Digit(x + k * Pow2(m), n) == Digit(x, n)
  {
    Pow2Add(n, m - n);
    Reorder(k, Pow2(n), Pow2(m - n - 1));
    DigitShift(x, k * Pow2(m - n - 1), n);
  }

  lemma DigitShift(x: int, j: int, n: nat)
    ensures Digit(x + (2 * j) * Pow2(n), n) == Digit(x, n)
  {
    hide Pow2;
    ModShift(x, 2 * j, Pow2(n));
    ModShift(x / Pow2(n), j, 2);
  }

  /** Dividing once more by two, and the digit that this cuts off. */
  lemma Halved(x: int, n: nat)
    ensures x / Pow2(n) / Pow2(1) == x / Pow2(n + 1)
    ensures Digit(x / Pow2(n), 0) == Digit(x, n)
  {
    assert Pow2(1) == 2 && Pow2(0) == 1;
    DivTwice(x, Pow2(n), 2);
  }

  lemma Reorder(k: int, a: int, b: int)
    ensures k * (a * (2 * b)) == (2 * (k * b)) * a
  {
  }

  lemma {:induction false} AndBit(x: nat, n: nat)
    ensures And(x, Pow2(n)) == if Digit(x, n) then Pow2(n) else 0
  {
    DigitOfZero(n);
    if x != 0 && n != 0 {
      AndBit(x / 2, n - 1);
      AndHalves(x, Pow2(n));
      DigitOfHalf(x, n - 1);
    }
  }

  lemma {:induction false} OrBit(x: nat, n: nat)
    ensures Or(x, Pow2(n)) == if Digit(x, n) then x else x + Pow2(n)
  {
    DigitOfZero(n);
    if x != 0 && n != 0 {
      OrBit(x / 2, n - 1);
      OrHalves(x, Pow2(n));
      DigitOfHalf(x, n - 1);
    }
  }

  lemma {:induction false} AndNotBit(x: nat, n: nat, m: nat)
    requires n < m && x < Pow2(m)
    ensures 2 * Pow2(n) <= Pow2(m) && And(x, Pow2(m) - 1 - Pow2(n)) == if Digit(x, n) then x - Pow2(n) else x
  {
    Pow2Grows(n + 1, m);
    var mask := Pow2(m) - 1 - Pow2(n);
    hide And, Digit;
    if n == 0 {
      AndNotLowest(x, m);
    } else {
      MaskHalved(n, m);
      hide Pow2;
      AndHalves(x, mask);
      AndNotBit(x / 2, n - 1, m - 1);
      DigitOfHalf(x, n - 1);
    }
  }

  lemma MaskHalved(n: nat, m: nat)
    requires 0 < n < m
    ensures Pow2(n) == 2 * Pow2(n - 1) && Pow2(m) == 2 * Pow2(m - 1) && Pow2(n - 1) < Pow2(m - 1)
    ensures (Pow2(m) - 1 - Pow2(n)) / 2 == Pow2(m - 1) - 1 - Pow2(n - 1) && (Pow2(m) - 1 - Pow2(n)) % 2 == 1
  {
    Pow2Grows(n, m - 1);
  }

  lemma AndNotLowest(x: nat, m: nat)
    requires m > 0 && x < Pow2(m)
    ensures And(x, Pow2(m) - 2) == x - x % 2 && (Digit(x, 0) <==> x % 2 == 1)
  {
    AndHalves(x, Pow2(m) - 2);
    AndMask(x / 2, m - 1);
    hide And;
    DivUnique(x / 2, Pow2(m - 1), 0, x / 2);
    assert Pow2(0) == 1;
  }

  /** The remainder modulo 2^(n+1) has one more digit. */
  lemma ModStep(x: int, n: nat)
    ensures x % Pow2(n + 1) == x % Pow2(n) + if Digit(x, n) then Pow2(n) else 0
  {
    var p := Pow2(n);
    var y := x / p;
    DivTwice(x, p, 2);
    assert x == y * p + x % p;
    assert x == (2 * (y / 2) + y % 2) * p + x % p;
    Distribute(y / 2, 2, y % 2, p);
    assert p * 2 == Pow2(n + 1) == 2 * p;
    DivUnique(x, 2 * p, y / 2, y % 2 * p + x % p);
  }

  /** Cutting off one digit less brings it back at the end. */
  lemma DivStep(x: int, n: nat)
    ensures x / Pow2(n) == 2 * (x / Pow2(n + 1)) + if Digit(x, n) then 1 else 0
  {
    DivTwice(x, Pow2(n), 2);
  }
}
