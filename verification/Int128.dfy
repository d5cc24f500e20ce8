/** Signed 128-bit integers made of two 64-bit words. */
module Int128Words {
  import opened MachineWords
  import opened Sequences

  const MAX := H * W - 1
  const MIN := -(H * W)

  /** The state of the subtraction loop of division. */
  datatype Rounds = Done | Running(b: nat, q: int, r: int)

  datatype Reading = NoDigit | Digits(value: nat)

  class Int128 {
    var lo: U64
    var hi: S64

    constructor (lo: U64, hi: S64)
      ensures this.lo == lo && this.hi == hi
    {
      this.lo, this.hi := lo, hi;
    }

    /** From a signed integer of up to 64 bits. */
    constructor Signed(a: S64)
      ensures Value() == a
    {
      lo := U(a);
      hi := if a < 0 then -1 else 0;
      new;
      if a < 0 {
        DivUnique(a, W, -1, a + W);
      }
    }

    /** From an unsigned integer of up to 64 bits. */
    constructor Unsigned(a: U64)
      ensures Value() == a
    {
      lo, hi := a, 0;
    }

    constructor Copy(a: Int128)
      ensures Value() == a.Value() && lo == a.lo && hi == a.hi
    {
      lo, hi := a.lo, a.hi;
    }

    /** The integer that the words stand for in two's complement. */
    ghost function Value(): (v: int)
      reads this
      ensures MIN <= v <= MAX
    {
      hi * W + lo
    }

    method Assign(a: Int128)
      modifies this
      ensures Value() == old(a.Value())
    {
      lo, hi := a.lo, a.hi;
    }

    predicate IsZero()
      reads this
      ensures IsZero() <==> Value() == 0
    {
      hi == 0 && lo == 0
    }

    predicate IsNegative()
      reads this
      ensures IsNegative() <==> Value() < 0
    {
      hi < 0
    }

    predicate Equals(b: Int128)
      reads this, b
      ensures Equals(b) <==> Value() == b.Value()
    {
      hi == b.hi && lo == b.lo
    }

    /** The source's order: the low words of numbers with the same negative high word compare as signed. */
    predicate Less(b: Int128)
      reads this, b
    {
      if hi == b.hi then if hi < 0 then S(lo) < S(b.lo) else lo < b.lo
      else hi < b.hi
    }

    /** It is the order of the integers exactly if equal negative high words come with low words of the same sign. */
    lemma LessMeansLess(b: Int128)
      ensures (Less(b) <==> Value() < b.Value()) <==> !(hi == b.hi && hi < 0 && (lo < H <==> b.lo >= H))
    {
      SOfWord(lo);
      SOfWord(b.lo);
    }

    /** For instance, of -2^64 and -2^63 the smaller one is not less. */
    static method NotLess() returns (a: Int128, b: Int128, less: bool)
      ensures a.Value() == -W && b.Value() == -H && less == a.Less(b) && !less
    {
      a := new Int128(0, -1);
      b := new Int128(H, -1);
      SOfWord(0);
      SOfWord(H);
      less := a.Less(b);
    }

    static lemma SOfWord(x: U64)
      ensures S(x) == if x < H then x else x - W
    {
      DivUnique(x + H, W, if x < H then 0 else 1, if x < H then x + H else x - H);
    }

    // ---------- addition and negation ----------

    static lemma AddWords(lo: U64, hi: S64, blo: U64, bhi: S64)
      ensures var l, h := U(lo + blo), S(hi + bhi);
        Wrap(hi * W + lo + (bhi * W + blo)) == (if l < lo then S(h + 1) else h) * W + l
    {
      var l, carry := U(lo + blo), if lo + blo < W then 0 else 1;
      DivUnique(lo + blo, W, carry, lo + blo - carry * W);
      assert l < lo <==> carry == 1;
      SOfSum(hi + bhi, 1);
      WrapWords(hi + bhi + carry, l);
      assert hi * W + lo + (bhi * W + blo) == (hi + bhi + carry) * W + l;
    }

    /** Adds with a carry between the words; the operand may be this number itself. */
    method AddAssign(b: Int128)
      modifies this
      ensures Value() == Wrap(old(Value()) + old(b.Value()))
    {
      AddWords(lo, hi, b.lo, b.hi);
      var oldLo := lo;
      lo, hi := U(lo + b.lo), S(hi + b.hi);
      if lo < oldLo {
        hi := S(hi + 1);
      }
    }

    static lemma NegateWords(lo: U64, hi: S64)
      ensures Wrap(-(hi * W + lo)) == if lo == 0 then S(0 - hi) * W else (-1 - hi) * W + U(0 - lo)
    {
      if lo == 0 {
        WrapWords(0 - hi, 0);
      } else {
        DivUnique(0 - lo, W, -1, W - lo);
        WrapWords(-1 - hi, W - lo);
        DivUnique(-1 - hi + H, W, 0, -1 - hi + H);
      }
    }

    method Negated() returns (r: Int128)
      ensures fresh(r) && r.Value() == Wrap(-Value())
    {
      NegateWords(lo, hi);
      if lo == 0 {
        r := new Int128(0, S(0 - hi));
      } else {
        r := new Int128(U(0 - lo), -1 - hi);
      }
    }

    method SubAssign(b: Int128)
      modifies this
      ensures Value() == Wrap(old(Value()) - old(b.Value()))
    {
      ghost var x, y := Value(), b.Value();
      var n := b.Negated();
      WrapAdd(x, -y);
      AddAssign(n);
    }

    method Increment()
      modifies this
      ensures Value() == Wrap(old(Value()) + 1)
    {
      AddWords(lo, hi, 1, 0);
      DivUnique(lo + 1, W, if lo == W - 1 then 1 else 0, if lo == W - 1 then 0 else lo + 1);
      DivUnique(hi + H, W, 0, hi + H);
      lo := U(lo + 1);
      if lo == 0 {
        hi := S(hi + 1);
      }
    }

    method Decrement()
      modifies this
      ensures Value() == Wrap(old(Value()) - 1)
    {
      DivUnique(lo - 1, W, if lo == 0 then -1 else 0, if lo == 0 then W - 1 else lo - 1);
      if lo == 0 {
        WrapWords(hi - 1, W - 1);
      } else {
        WrapFits(Value() - 1);
      }
      if lo == 0 {
        hi := S(hi - 1);
      }
      lo := U(lo - 1);
    }

    // ---------- shifts ----------

    /** Shifting both words right by `n` bits, where p == 2^n and q == 2^(64-n). */
    static lemma RightValue(lo: int, hi: int, p: int, q: int)
      requires p > 0 && q > 0 && p * q == W && 0 <= lo < W && -H <= hi < H
      ensures 0 <= lo / p < q && 0 <= (hi % p) * q <= W - q && -H <= hi / p < H
      ensures (hi * W + lo) / p == hi / p * W + (lo / p + (hi % p) * q)
    {
      DivBelow(lo, p, q);
      Scaled(hi % p, p, q);
      DivShrinks(hi, p);
      Regroup(hi / p, hi % p, lo / p, p, q);
      DivUnique(hi * W + lo, p, hi / p * W + (lo / p + (hi % p) * q), lo % p);
    }

    static lemma DivShrinks(x: int, p: int)
      requires p > 0 && -H <= x < H
      ensures -H <= x / p < H
    {
      var k := x / p;
      assert k * p <= x < k * p + p;
      if k >= 0 {
        Grows(k, p);
      } else {
        Grows(-1 - k, p);
        assert (-1 - k) * p == -(k * p) - p;
      }
    }

    static lemma Regroup(h1: int, h0: int, l1: int, p: int, q: int)
      ensures (h1 * p + h0) * (p * q) + l1 * p == (h1 * (p * q) + (l1 + h0 * q)) * p
    {
      assert (h1 * p) * (p * q) == h1 * (p * q) * p;
      assert h0 * (p * q) == h0 * q * p;
    }

    static lemma RightWords(lo: U64, hi: S64, n: nat)
      requires 0 < n < 64
      ensures var p, q := Pow2(n), Pow2(64 - n);
        0 <= lo / p < W && 0 <= (hi % p) * q && lo / p + (hi % p) * q < W && -H <= hi / p < H &&
        And(U(hi), p - 1) == hi % p && U((hi % p) * q) == (hi % p) * q &&
        Or(lo / p, (hi % p) * q) == lo / p + (hi % p) * q &&
        (hi * W + lo) / p == hi / p * W + (lo / p + (hi % p) * q)
    {
      var p, q := Pow2(n), Pow2(64 - n);
      Pow2Add(n, 64 - n);
      Pow2Words();
      AndMask(U(hi), n);
      ModOfMultiple(hi, p, q);
      RightValue(lo, hi, p, q);
      DivUnique((hi % p) * q, W, 0, (hi % p) * q);
      OrIsSum(lo / p, hi % p, 64 - n);
    }

    /** Arithmetic right shift is division by a power of two, rounding down. */
    method ShiftRight(n: nat)
      modifies this
      ensures Value() == old(Value()) / Pow2(n)
    {
      if n >= 128 {
        ShiftedOut(Value(), n);
        hi := if hi < 0 then -1 else 0;
        lo := U(hi);
      } else if n >= 64 {
        HighWordOnly(lo, hi, n - 64);
        lo := U(hi / Pow2(n - 64));
        hi := if hi < 0 then -1 else 0;
      } else if n != 0 {
        ShiftWordsRight(n);
      }
    }

    method ShiftWordsRight(n: nat)
      requires 0 < n < 64
      modifies this
      ensures Value() == old(Value()) / Pow2(n)
    {
      RightWords(lo, hi, n);
      lo := lo / Pow2(n);
      var mask := Pow2(n) - 1;
      lo := Or(lo, U(And(U(hi), mask) * Pow2(64 - n)));
      hi := hi / Pow2(n);
    }

    static lemma ShiftedOut(v: int, n: nat)
      requires MIN <= v <= MAX && 127 <= n
      ensures v / Pow2(n) == if v < 0 then -1 else 0
    {
      Pow2Words();
      Pow2Grows(127, n);
      DivUnique(v, Pow2(n), if v < 0 then -1 else 0, if v < 0 then v + Pow2(n) else v);
    }

    static lemma HighWordOnly(lo: U64, hi: S64, n: nat)
      requires n < 64
      ensures var h := hi / Pow2(n);
        -H <= h < H && (hi * W + lo) / Pow2(n + 64) == h &&
        h == (if hi < 0 then -1 else 0) * W + U(h)
    {
      Pow2Words();
      Pow2Add(64, n);
      DivUnique(hi * W + lo, W, hi, lo);
      DivTwice(hi * W + lo, W, Pow2(n));
      DivShrinks(hi, Pow2(n));
      SignOfQuotient(hi, Pow2(n));
      WordOf(hi / Pow2(n));
    }

    static lemma SignOfQuotient(x: int, p: int)
      requires p > 0
      ensures x < 0 <==> x / p < 0
    {
      var k := x / p;
      assert x == k * p + x % p;
      MultipleGrows(k, p);
      Ordered(k, 0, p);
    }

    static lemma WordOf(h: int)
      requires -H <= h < H
      ensures h == (if h < 0 then -1 else 0) * W + U(h)
    {
      DivUnique(h, W, if h < 0 then -1 else 0, if h < 0 then h + W else h);
    }

    /** Shifting both words left by `n` bits, where p == 2^n and q == 2^(64-n). */
    static lemma LeftValue(lo: int, hi: int, p: int, q: int)
      requires p > 0 && q > 0 && p * q == W && 0 <= lo < W
      ensures 0 <= lo / q < p
      ensures Wrap((hi * W + lo) * p) == S(hi * p + lo / q) * W + U(lo * p)
    {
      DivBelow(lo, q, p);
      Scaled(lo % q, q, p);
      LeftLow(lo, p, q);
      var l1, l0 := lo / q, lo % q;
      LeftRegroup(hi, l1, l0, p, q);
      assert lo == l1 * q + l0;
      assert (hi * W + lo) * p == (hi * p + l1) * W + l0 * p;
      WrapWords(hi * p + l1, l0 * p);
    }

    static lemma LeftLow(lo: int, p: int, q: int)
      requires p > 0 && q > 0 && p * q == W && 0 <= lo < W
      ensures U(lo * p) == lo % q * p
    {
      Scaled(lo % q, q, p);
      LeftRegroup(0, lo / q, lo % q, p, q);
      DivUnique(lo * p, W, lo / q, lo % q * p);
    }

    static lemma LeftRegroup(hi: int, l1: int, l0: int, p: int, q: int)
      ensures (l1 * q + l0) * p == l1 * (p * q) + l0 * p
      ensures (hi * (p * q) + (l1 * q + l0)) * p == (hi * p + l1) * (p * q) + l0 * p
    {
      assert l1 * q * p == l1 * (p * q);
      assert hi * (p * q) * p == hi * p * (p * q);
    }

    static lemma LeftWords(lo: U64, hi: S64, n: nat)
      requires 0 < n < 64
      ensures var p, q := Pow2(n), Pow2(64 - n);
        q <= W && And(lo, W - q) == lo - lo % q && (lo - lo % q) / q == lo / q >= 0 &&
        S(Or(U(S(hi * p)), lo / q)) == S(hi * p + lo / q) &&
        Wrap((hi * W + lo) * p) == S(hi * p + lo / q) * W + U(lo * p)
    {
      var p, q := Pow2(n), Pow2(64 - n);
      Pow2Add(n, 64 - n);
      Pow2Words();
      AndNotMask(lo, 64 - n, 64);
      WholePart(lo, q);
      LeftValue(lo, hi, p, q);
      OrOfHigh(hi, lo / q, p, q, n);
    }

    static lemma OrOfHigh(hi: int, x: nat, p: int, q: int, n: nat)
      requires p == Pow2(n) && q > 0 && p * q == W && x < p
      ensures S(Or(U(S(hi * p)), x)) == S(hi * p + x)
    {
      SOfU(hi * p);
      ModTimes(hi, q, p);
      OrIsSum(x, hi % q, n);
      SOfSum(hi * p, x);
      SOfU(hi * p);
      ModShift(hi * p, 0, W);
      UPlus(hi * p, x);
    }

    static lemma UPlus(y: int, x: int)
      ensures S(U(y) + x) == S(y + x)
    {
      ModShift(U(y) + x + H, y / W, W);
    }

    static lemma ModTimes(x: int, q: int, p: int)
      requires q > 0 && p > 0
      ensures p * q > 0 && (x * p) % (p * q) == x % q * p
    {
      LeftRegroup(0, x / q, x % q, p, q);
      Scaled(x % q, q, p);
      DivUnique(x * p, p * q, x / q, x % q * p);
    }

    /** Left shift is multiplication by a power of two, modulo 2^128. */
    method ShiftLeft(n: nat)
      modifies this
      ensures Value() == Wrap(old(Value()) * Pow2(n))
    {
      if n >= 128 {
        ShiftedAway(Value(), n);
        lo, hi := 0, 0;
      } else if n >= 64 {
        LowWordOnly(lo, hi, n - 64);
        hi := S(U(lo * Pow2(n - 64)));
        lo := 0;
      } else if n != 0 {
        ShiftWordsLeft(n);
      } else {
        WrapFits(Value());
      }
    }

    method ShiftWordsLeft(n: nat)
      requires 0 < n < 64
      modifies this
      ensures Value() == Wrap(old(Value()) * Pow2(n))
    {
      LeftWords(lo, hi, n);
      hi := S(hi * Pow2(n));
      var mask := W - 1 - (Pow2(64 - n) - 1);
      hi := S(Or(U(hi), And(lo, mask) / Pow2(64 - n)));
      lo := U(lo * Pow2(n));
    }

    static lemma ShiftedAway(v: int, n: nat)
      requires 128 <= n
      ensures Wrap(v * Pow2(n)) == 0
    {
      Pow2Words();
      Pow2Add(128, n - 128);
      var k := v * Pow2(n - 128);
      assert v * Pow2(n) == 0 + k * M by {
        LeftRegroup(0, v, 0, M, Pow2(n - 128));
      }
      WrapShift(0, k);
    }

    static lemma LowWordOnly(lo: U64, hi: S64, n: nat)
      requires n < 64
      ensures Wrap((hi * W + lo) * Pow2(n + 64)) == S(U(lo * Pow2(n))) * W
    {
      var p := Pow2(n);
      Pow2Words();
      Pow2Add(n, 64);
      SOfU(lo * p);
      WrapWords(lo * p, 0);
      WrapShift(lo * p * W, hi * p);
      Spread(hi, lo, p, W);
    }

    static lemma Spread(hi: int, lo: int, p: int, w: int)
      ensures (hi * w + lo) * (p * w) == lo * p * w + hi * p * (w * w)
    {
      assert hi * w * (p * w) == hi * p * (w * w);
      assert lo * (p * w) == lo * p * w;
    }

    // ---------- bits ----------

    static lemma LowDigit(lo: U64, hi: S64, n: nat)
      requires n < 64
      ensures Digit(hi * W + lo, n) == Digit(lo, n)
    {
      Pow2Words();
      DigitMod(lo, hi, 64, n);
    }

    static lemma HighDigit(lo: U64, hi: S64, n: nat)
      requires n < 64
      ensures Digit(hi * W + lo, n + 64) == Digit(U(hi), n)
    {
      HighWordOnly(lo, hi, n);
      Pow2Words();
      DigitMod(U(hi), hi / W, 64, n);
    }

    /** Bit `n` of the two's complement representation, which sign extension continues for ever. */
    predicate Bit(n: nat)
      reads this
      ensures Bit(n) <==> Digit(Value(), n)
    {
      if n >= 128 then
        ShiftedOut(Value(), n);
        hi < 0
      else if n < 64 then
        LowDigit(lo, hi, n);
        AndBit(lo, n);
        And(lo, Pow2(n)) != 0
      else
        HighDigit(lo, hi, n - 64);
        AndBit(U(hi), n - 64);
        And(U(hi), Pow2(n - 64)) != 0
    }

    /** The digits of a number are those of its words, and its sign. */
    static lemma DigitsOfWords(lo: U64, hi: S64, n: nat)
      ensures Digit(hi * W + lo, n) <==>
              if n < 64 then Digit(lo, n) else if n < 128 then Digit(U(hi), n - 64) else Digit(U(hi), 63)
    {
      hide Digit, Pow2, U;
      if n < 64 {
        LowDigit(lo, hi, n);
      } else if n < 128 {
        HighDigit(lo, hi, n - 64);
      } else {
        HighDigit(lo, hi, 63);
        SignDigit(hi * W + lo, n);
        SignDigit(hi * W + lo, 127);
      }
    }

    static lemma SignDigit(v: int, n: nat)
      requires MIN <= v <= MAX && 127 <= n
      ensures Digit(v, n) <==> v < 0
    {
      ShiftedOut(v, n);
    }

    static lemma WordFits(x: nat)
      requires x < Pow2(64)
      ensures x < W && U(S(x)) == x
    {
      Pow2Words();
      SOfU(x);
      DivUnique(x, W, 0, x);
    }

    /** Bitwise or, digit by digit, also of a number with itself. */
    method OrAssign(b: Int128)
      modifies this
      ensures forall n: nat :: Digit(Value(), n) <==> Digit(old(Value()), n) || Digit(old(b.Value()), n)
    {
      hide Digit, Or, U, S;
      ghost var l, h, bl, bh := lo, hi, b.lo, b.hi;
      OrWords(lo, b.lo);
      OrWords(U(hi), U(b.hi));
      hi := S(Or(U(hi), U(b.hi)));
      lo := Or(lo, b.lo);
      forall n: nat ensures Digit(Value(), n) <==> Digit(h * W + l, n) || Digit(bh * W + bl, n) {
        DigitsOfWords(lo, hi, n);
        DigitsOfWords(l, h, n);
        DigitsOfWords(bl, bh, n);
        OrDigits(l, bl, n);
        OrDigits(U(h), U(bh), if n < 64 then 0 else if n < 128 then n - 64 else 63);
      }
    }

    static lemma OrWords(x: U64, y: U64)
      ensures Or(x, y) < W && U(S(Or(x, y))) == Or(x, y)
    {
      Pow2Words();
      BitwiseFits(x, y, 64);
      WordFits(Or(x, y));
    }

    /** Bitwise and. */
    method AndAssign(b: Int128)
      modifies this
      ensures forall n: nat :: Digit(Value(), n) <==> Digit(old(Value()), n) && Digit(old(b.Value()), n)
    {
      hide Digit, And, U, S;
      ghost var l, h, bl, bh := lo, hi, b.lo, b.hi;
      AndWords(lo, b.lo);
      AndWords(U(hi), U(b.hi));
      hi := S(And(U(hi), U(b.hi)));
      lo := And(lo, b.lo);
      forall n: nat ensures Digit(Value(), n) <==> Digit(h * W + l, n) && Digit(bh * W + bl, n) {
        DigitsOfWords(lo, hi, n);
        DigitsOfWords(l, h, n);
        DigitsOfWords(bl, bh, n);
        AndDigits(l, bl, n);
        AndDigits(U(h), U(bh), if n < 64 then 0 else if n < 128 then n - 64 else 63);
      }
    }

    static lemma AndWords(x: U64, y: U64)
      ensures And(x, y) < W && U(S(And(x, y))) == And(x, y)
    {
      Pow2Words();
      BitwiseFits(x, y, 64);
      WordFits(And(x, y));
    }

    /** Bitwise exclusive or. */
    method XorAssign(b: Int128)
      modifies this
      ensures forall n: nat :: Digit(Value(), n) <==> Digit(old(Value()), n) != Digit(old(b.Value()), n)
    {
      hide Digit, Xor, U, S;
      ghost var l, h, bl, bh := lo, hi, b.lo, b.hi;
      XorWords(lo, b.lo);
      XorWords(U(hi), U(b.hi));
      hi := S(Xor(U(hi), U(b.hi)));
      lo := Xor(lo, b.lo);
      forall n: nat ensures Digit(Value(), n) <==> Digit(h * W + l, n) != Digit(bh * W + bl, n) {
        DigitsOfWords(lo, hi, n);
        DigitsOfWords(l, h, n);
        DigitsOfWords(bl, bh, n);
        XorDigits(l, bl, n);
        XorDigits(U(h), U(bh), if n < 64 then 0 else if n < 128 then n - 64 else 63);
      }
    }

    static lemma XorWords(x: U64, y: U64)
      ensures Xor(x, y) < W && U(S(Xor(x, y))) == Xor(x, y)
    {
      Pow2Words();
      BitwiseFits(x, y, 64);
      WordFits(Xor(x, y));
    }

    /** Complementing all digits is negation less one. */
    method Complement() returns (r: Int128)
      ensures fresh(r) && r.Value() == -1 - Value()
    {
      r := new Int128(W - 1 - lo, -1 - hi);
    }

    static lemma OrWord(x: U64, n: nat)
      requires n < 64
      ensures 0 <= Or(x, Pow2(n)) < W && Or(x, Pow2(n)) == if Digit(x, n) then x else x + Pow2(n)
    {
      OrBit(x, n);
      Pow2Words();
      Pow2Grows(n + 1, 64);
      BitwiseFits(x, Pow2(n), 64);
    }

    static lemma SOfHigh(hi: S64)
      ensures S(U(hi)) == hi
    {
      SOfU(hi);
      DivUnique(hi + H, W, 0, hi + H);
    }

    static lemma HighBitSet(lo: U64, hi: S64, n: nat)
      requires n < 64
      ensures 0 <= Or(U(hi), Pow2(n)) < W
      ensures S(Or(U(hi), Pow2(n))) * W + lo ==
              if Digit(hi * W + lo, n + 64) then hi * W + lo else Wrap(hi * W + lo + Pow2(n + 64))
    {
      hide Digit, Or, Pow2;
      HighDigit(lo, hi, n);
      OrWord(U(hi), n);
      SOfHigh(hi);
      HighSum(lo, hi, n, Pow2(n));
    }

    static lemma ShiftedPow2(n: nat)
      ensures Pow2(n + 64) == Pow2(n) * W
    {
      Pow2Words();
      Pow2Add(n, 64);
    }

    static lemma HighSum(lo: U64, hi: S64, n: nat, p: int)
      requires n < 64 && (p == Pow2(n) || p == -Pow2(n))
      ensures Wrap(hi * W + lo + if p > 0 then Pow2(n + 64) else -Pow2(n + 64)) == S(U(hi) + p) * W + lo
    {
      ShiftedPow2(n);
      hide Wrap, S, U, Pow2;
      UPlus(hi, p);
      WrapWords(hi + p, lo);
      assert hi * W + lo + p * W == (hi + p) * W + lo;
    }

    /** Sets bit `n`. */
    method SetBit(n: nat)
      modifies this
      ensures Value() == if n >= 128 || Digit(old(Value()), n) then old(Value()) else Wrap(old(Value()) + Pow2(n))
    {
      hide Digit, Or, Pow2, Wrap, S, U;
      if n >= 128 {
        return;
      }
      if n < 64 {
        LowDigit(lo, hi, n);
        OrWord(lo, n);
        lo := Or(lo, Pow2(n));
        WrapFits(Value());
      } else {
        HighBitSet(lo, hi, n - 64);
        hi := S(Or(U(hi), Pow2(n - 64)));
      }
    }

    static lemma AndWord(x: U64, n: nat)
      requires n < 64
      ensures 0 <= W - 1 - Pow2(n) && 0 <= And(x, W - 1 - Pow2(n)) < W
      ensures And(x, W - 1 - Pow2(n)) == if Digit(x, n) then x - Pow2(n) else x
    {
      Pow2Words();
      AndNotBit(x, n, 64);
      BitwiseFits(x, W - 1 - Pow2(n), 64);
    }

    static lemma HighBitCleared(lo: U64, hi: S64, n: nat)
      requires n < 64
      ensures 0 <= W - 1 - Pow2(n) && 0 <= And(U(hi), W - 1 - Pow2(n)) < W
      ensures S(And(U(hi), W - 1 - Pow2(n))) * W + lo ==
              if Digit(hi * W + lo, n + 64) then Wrap(hi * W + lo - Pow2(n + 64)) else hi * W + lo
    {
      hide Digit, And, Pow2;
      HighDigit(lo, hi, n);
      AndWord(U(hi), n);
      SOfHigh(hi);
      HighSum(lo, hi, n, -Pow2(n));
    }

    /** Clears bit `n`. */
    method ClearBit(n: nat)
      modifies this
      ensures Value() == if n >= 128 || !Digit(old(Value()), n) then old(Value()) else Wrap(old(Value()) - Pow2(n))
    {
      hide Digit, And, Pow2, Wrap, S, U;
      if n >= 128 {
        return;
      }
      if n < 64 {
        LowDigit(lo, hi, n);
        AndWord(lo, n);
        lo := And(lo, W - 1 - Pow2(n));
        WrapFits(Value());
      } else {
        HighBitCleared(lo, hi, n - 64);
        hi := S(And(U(hi), W - 1 - Pow2(n - 64)));
      }
    }

    // ---------- multiplication ----------

    static lemma ProductStep(a: int, b: int, n: nat)
      ensures Wrap(a * (b % Pow2(n + 1))) ==
              if Digit(b, n) then Wrap(Wrap(a * (b % Pow2(n))) + Wrap(a * Pow2(n))) else Wrap(a * (b % Pow2(n)))
    {
      ModStep(b, n);
      var x, p := b % Pow2(n), Pow2(n);
      WrapAdd(a * x, a * p);
      assert a * (x + p) == a * x + a * p;
    }

    static lemma ProductEnd(a: int, b: int)
      ensures Wrap(a * (b % Pow2(128))) == Wrap(a * b)
    {
      Pow2Words();
      var k := b / M;
      assert b == b % M + k * M;
      WrapShift(a * (b % M), a * k);
      assert a * b == a * (b % M) + a * k * M;
    }

    static lemma NoDigits(y: int)
      ensures y / Pow2(0) == y && y % Pow2(0) == 0
    {
      DivUnique(y, 1, y, 0);
    }

    static lemma LowestDigit(lo: U64, hi: S64)
      ensures And(lo, 1) == lo % 2 && (lo % 2 == 1 <==> Digit(hi * W + lo, 0))
    {
      AndMask(lo, 1);
      assert Pow2(1) == 2 && Pow2(0) == 1;
      LowDigit(lo, hi, 0);
    }

    /** Adds the shifted multiplicand for every bit of the multiplier; the operand may be this number itself. */
    method MulAssign(b: Int128)
      modifies this
      ensures Value() == Wrap(old(Value()) * old(b.Value()))
    {
      hide Digit, Pow2, Wrap, And;
      ghost var x, y := Value(), b.Value();
      WrapFits(x);
      WrapFits(0);
      if b.IsZero() {
        lo, hi := 0, 0;
        return;
      }
      if b.hi == 0 && b.lo == 1 {
        return;
      }
      var a := new Int128.Copy(this);
      var t := new Int128.Copy(b);
      lo, hi := 0, 0;
      NoDigits(y);
      for i := 0 to 128
        invariant fresh(a) && fresh(t) && a != t && a.Value() == x
        invariant t.Value() == y / Pow2(i)
        invariant Value() == Wrap(x * (y % Pow2(i)))
      {
        LowestDigit(t.lo, t.hi);
        ProductStep(x, y, i);
        Halved(y, i);
        if And(t.lo, 1) != 0 {
          var s := new Int128.Copy(a);
          s.ShiftLeft(i);
          AddAssign(s);
        }
        t.ShiftRight(1);
      }
      ProductEnd(x, y);
    }

    // ---------- division ----------

    /** Truncated division, with a remainder that takes the sign of the dividend. */
    static ghost predicate Divides(a: int, b: int, q: int, r: int) {
      a == q * b + r && Abs(r) < Abs(b) && (r != 0 ==> (r < 0 <==> a < 0))
    }

    static ghost function Abs(x: int): nat { if x < 0 then -x else x }

    /** Quotient and remainder are determined by that. */
    static lemma DividesOnce(a: int, b: int, q: int, r: int, p: int, s: int)
      requires Divides(a, b, q, r) && Divides(a, b, p, s)
      ensures q == p && r == s
    {
      var k := q - p;
      Difference(q, p, b);
      MultipleGrows(if b > 0 then k else -k, Abs(b));
    }

    static lemma Difference(q: int, p: int, b: int)
      ensures (q - p) * b == q * b - p * b == -(q - p) * -b
    {
    }

    /** The magnitude, except that the least number is its own negation. */
    method Magnitude() returns (r: Int128)
      ensures fresh(r) && r.Value() == if Value() == MIN then MIN else Abs(Value())
    {
      hide Wrap;
      WrapFits(Value());
      if IsNegative() {
        r := Negated();
        if Value() == MIN {
          WrapLeast();
        } else {
          WrapFits(-Value());
        }
      } else {
        r := new Int128.Copy(this);
      }
    }

    static lemma WrapLeast()
      ensures Wrap(-MIN) == MIN && Wrap(0 - MIN) == MIN && Wrap(MIN - MIN) == 0 && Wrap(MIN) == MIN
    {
      WrapShift(-MIN, -1);
      WrapFits(MIN);
      WrapFits(0);
    }

    static lemma EvenLow(v: int, lo: U64, hi: S64)
      requires 0 <= v && 2 * v + 1 <= MAX && hi * W + lo == 2 * v
      ensures Or(lo, 1) == lo + 1 < W
    {
      OrBit(lo, 0);
      assert Pow2(0) == 1 && lo % 2 == 0;
    }

    /** Shifts in the next bit of the dividend. */
    method PushBit(bit: bool)
      requires 0 <= Value() && 2 * Value() + 1 <= MAX
      modifies this
      ensures Value() == 2 * old(Value()) + if bit then 1 else 0
    {
      hide Wrap, Or;
      ghost var v := Value();
      WrapFits(2 * v);
      assert Pow2(1) == 2;
      ShiftLeft(1);
      if bit {
        EvenLow(v, lo, hi);
        lo := Or(lo, 1);
      }
    }

    lemma LessFits(b: Int128)
      requires 0 <= Value() && 0 <= b.Value()
      ensures Less(b) <==> Value() < b.Value()
    {
      LessMeansLess(b);
    }

    /** Takes leading bits of the dividend `dd` until they make up at least the divisor; `b` bits are left. */
    method Align(dd: Int128, ds: Int128) returns (b: nat)
      requires this != dd && this != ds && Value() == 0 < ds.Value() <= dd.Value()
      modifies this
      ensures b < 128 && Value() == dd.Value() / Pow2(b) && ds.Value() <= Value() < 2 * ds.Value()
    {
      hide Digit, Pow2;
      ghost var d, k := dd.Value(), 128;
      ShiftedOut(d, 128);
      LessFits(ds);
      b := 127;
      while Less(ds)
        invariant k <= 128 && b == (if k == 0 then 0xFFFF_FFFF else k - 1)
        invariant 0 <= Value() == d / Pow2(k) <= d && Value() < 2 * ds.Value()
        invariant Less(ds) <==> Value() < ds.Value()
        invariant k == 128 ==> Less(ds)
        decreases k
      {
        NoDigits(d);
        Prefix(d, k - 1);
        DivStep(d, k - 1);
        var bit := dd.Bit(b);
        b := if b == 0 then 0xFFFF_FFFF else b - 1;
        PushBit(bit);
        k := k - 1;
        LessFits(ds);
      }
      b := (b + 1) % 0x1_0000_0000;
    }

    static lemma Prefix(d: int, k: nat)
      requires 0 <= d
      ensures 0 <= d / Pow2(k) <= d && 2 * (d / Pow2(k + 1)) <= d / Pow2(k)
    {
      DivStep(d, k);
      var p := Pow2(k);
      assert d == d / p * p + d % p;
      MultipleGrows(d / p, p);
      Ordered(d / p, 0, p);
      if d / p >= 0 {
        Grows(d / p, p);
      }
    }

    /** Where long division stands with `b` bits to go: partial quotient z * 2^b and partial remainder r. */
    static ghost predicate Partly(d: int, ds: int, b: nat, z: nat, q: int, r: int) {
      d / Pow2(b) == z * ds + r && 0 <= r < 2 * ds && q == z * Pow2(b) && (r >= ds ==> z % 2 == 0)
    }

    /** The divisor fits once: its bit is free in the quotient, which stays within the dividend. */
    static lemma FitsOnce(d: int, ds: int, b: nat, z: nat, q: int, r: int)
      requires Partly(d, ds, b, z, q, r) && r >= ds > 0 && 0 <= d <= MAX
      ensures Partly(d, ds, b, z + 1, q + Pow2(b), r - ds)
      ensures !Digit(q, b) && 0 <= q && q + Pow2(b) <= MAX
    {
      var p := Pow2(b);
      hide Pow2;
      DivUnique(q, p, z, 0);
      RoomInQuotient(d, ds, p, z, r);
      Bracket(z, ds);
      Bracket(z, p);
      hide *;
    }

    static lemma Bracket(z: int, p: int)
      ensures (z + 1) * p == z * p + p
    {
    }

    static lemma RoomInQuotient(d: int, ds: int, p: int, z: int, r: int)
      requires 0 < p && 0 <= d && d / p == z * ds + r && ds <= r < 2 * ds && z % 2 == 0
      ensures 0 <= z * p && (z + 1) * p <= d
    {
      Bracket(z, ds);
      if z < 0 {
        Ordered(-2, z, ds);
        assert false;
      }
      Grows(z + 1, ds);
      Ordered(d / p, z + 1, p);
      Ordered(z, 0, p);
    }

    static lemma Doubled(z: int, x: int, r: int)
      ensures 2 * (z * x + r) == (2 * z) * x + 2 * r && z * (2 * x) == (2 * z) * x
    {
    }

    /** The next bit is brought down. */
    static lemma BringDown(d: int, ds: int, b: nat, z: nat, q: int, r: int)
      requires b > 0 && Partly(d, ds, b, z, q, r) && r < ds && 0 <= d <= MAX
      ensures Partly(d, ds, b - 1, 2 * z, q, 2 * r + if Digit(d, b - 1) then 1 else 0)
      ensures 0 <= r && 2 * r + 1 <= MAX
    {
      DivStep(d, b - 1);
      assert Pow2(b) == 2 * Pow2(b - 1);
      hide Pow2, Digit;
      Doubled(z, ds, r);
      Doubled(z, Pow2(b - 1), 0);
      Prefix(d, b - 1);
      Ordered(z, 0, ds);
    }

    static lemma RoundDown(d: int, ds: int, b: nat, q: int, r: int)
      requires b > 0 && Below(r, ds) && 0 <= r && 2 * r + 1 <= MAX
      ensures Round(d, ds, Running(b, q, r)) == Running(b - 1, q, 2 * r + if Digit(d, b - 1) then 1 else 0)
    {
      hide Digit, Wrap;
      WrapFits(2 * r);
    }

    static lemma RoundOff(d: int, ds: int, b: nat, q: int, r: int)
      requires b < 128 && !Below(r, ds) && !Digit(q, b) && 0 < ds <= r <= MAX && 0 <= q && q + Pow2(b) <= MAX
      ensures Round(d, ds, Running(b, q, r)) == Running(b, q + Pow2(b), r - ds)
    {
      hide Digit, Wrap, Pow2;
      WrapFits(q + Pow2(b));
      WrapFits(r - ds);
    }

    static lemma Finished(d: int, ds: int, z: nat, q: int, r: int)
      requires Partly(d, ds, 0, z, q, r)
      ensures d == q * ds + r && 0 <= r
    {
      NoDigits(d);
      assert q == z;
    }

    /** One round: the divisor fits. */
    method TakeOff(ds: Int128, q: Int128, b: nat, ghost d: int, ghost z: nat)
      requires this != ds && this != q && q != ds && b < 128 && 0 <= d <= MAX && 0 <= q.Value()
      requires Partly(d, ds.Value(), b, z, q.Value(), Value()) && Value() >= ds.Value() > 0
      requires !Below(Value(), ds.Value())
      modifies this, q
      ensures Partly(d, ds.Value(), b, z + 1, q.Value(), Value()) && 0 <= q.Value() && Value() < old(Value())
      ensures Running(b, q.Value(), Value()) == Round(d, ds.Value(), Running(b, old(q.Value()), old(Value())))
    {
      hide Digit, Pow2, Wrap, Below, Round, Partly, Value;
      FitsOnce(d, ds.Value(), b, z, q.Value(), Value());
      RoundOff(d, ds.Value(), b, q.Value(), Value());
      WrapFits(Value() - ds.Value());
      WrapFits(q.Value() + Pow2(b));
      SubAssign(ds);
      q.SetBit(b);
    }

    /** One round: the next bit is brought down. */
    method TakeBit(dd: Int128, ds: Int128, b: nat, ghost q: int, ghost z: nat)
      requires this != dd && this != ds && 0 < b < 128 && 0 <= dd.Value()
      requires Partly(dd.Value(), ds.Value(), b, z, q, Value()) && Value() < ds.Value() && Below(Value(), ds.Value())
      modifies this
      ensures Partly(dd.Value(), ds.Value(), b - 1, 2 * z, q, Value())
      ensures Running(b - 1, q, Value()) == Round(dd.Value(), ds.Value(), Running(b, q, old(Value())))
    {
      hide Digit, Pow2, Wrap, Below, Round, Partly, Value;
      BringDown(dd.Value(), ds.Value(), b, z, q, Value());
      RoundDown(dd.Value(), ds.Value(), b, q, Value());
      PushBit(dd.Bit(b - 1));
    }

    /** Subtracts the divisor wherever it fits, bit by bit. */
    method Subtract(dd: Int128, ds: Int128, q: Int128, start: nat)
      requires this != dd && this != ds && this != q && q != dd && q != ds
      requires 0 < ds.Value() <= dd.Value() && q.Value() == 0 && start < 128
      requires ds.Value() <= Value() == dd.Value() / Pow2(start) && Value() < 2 * ds.Value()
      modifies this, q
      ensures dd.Value() == q.Value() * ds.Value() + Value() && 0 <= Value() < ds.Value() && 0 <= q.Value()
    {
      assert Partly(dd.Value(), ds.Value(), start, 0, 0, Value());
      hide Digit, Pow2, Wrap, Less, Below, Round, Partly, Value;
      ghost var d, n := dd.Value(), ds.Value();
      ghost var z: nat := 0;
      var b := start;
      while true
        invariant Partly(d, n, b, z, q.Value(), Value()) && 0 <= q.Value() && 0 <= Value() && b < 128
        decreases b, Value()
      {
        ghost var before := Running(b, q.Value(), Value());
        LessFits(ds);
        LessIsBelow(ds);
        if Less(ds) {
          if b == 0 {
            Finished(d, n, z, q.Value(), Value());
            break;
          }
          TakeBit(dd, ds, b, q.Value(), z);
          PartlyFits(d, n, b - 1, 2 * z, q.Value(), Value());
          z := 2 * z;
          b := b - 1;
        } else {
          TakeOff(ds, q, b, d, z);
          PartlyFits(d, n, b, z + 1, q.Value(), Value());
          z := z + 1;
        }
        assert Running(b, q.Value(), Value()) == Round(d, n, before);
      }
    }

    static lemma PartlyFits(d: int, ds: int, b: nat, z: nat, q: int, r: int)
      requires Partly(d, ds, b, z, q, r)
      ensures 0 <= r
    {
    }

    /** Quotient and remainder of magnitudes. */
    method LongDivision(ds: Int128) returns (q: Int128, r: Int128)
      requires 0 < ds.Value() <= Value()
      ensures fresh(q) && fresh(r) && q != r
      ensures Value() == q.Value() * ds.Value() + r.Value() && 0 <= r.Value() < ds.Value() && 0 <= q.Value()
    {
      hide Wrap, Less, Value;
      r := new Int128.Signed(0);
      q := new Int128.Signed(0);
      var b := r.Align(this, ds);
      r.Subtract(this, ds, q, b);
    }

    /**
     * Division by a divisor other than zero (refused) and the least number (for which the source does not return).
     * It is truncated division unless the dividend is the least number, for which it gives 0 and the dividend itself.
     * The place for the remainder may be the dividend or the divisor.
     */
    method Div(divisor: Int128, remainder: Int128) returns (ok: bool, quotient: Int128)
      requires divisor.Value() != MIN
      modifies remainder
      ensures fresh(quotient)
      ensures ok <==> old(divisor.Value()) != 0
      ensures !ok ==> remainder.Value() == old(remainder.Value())
      ensures ok && old(Value()) != MIN ==> Divides(old(Value()), old(divisor.Value()), quotient.Value(),
        remainder.Value())
      ensures ok && old(Value()) == MIN ==> quotient.Value() == 0 && remainder.Value() == MIN
    {
      hide Wrap, Less, Divides;
      ghost var x, y := Value(), divisor.Value();
      SmallDividend(x, y);
      quotient := new Int128.Signed(0);
      if divisor.IsZero() {
        ok := false;
        return;
      }
      ok := true;
      var ds := divisor.Magnitude();
      var dd := Magnitude();
      dd.LessMeansLess(ds);
      if dd.Less(ds) {
        remainder.Assign(this);
        return;
      }
      var r;
      quotient, r := dd.LongDivision(ds);
      SignsCorrected(x, y, quotient.Value(), r.Value());
      quotient := quotient.WithSign(divisor.IsNegative() != IsNegative());
      r := r.WithSign(IsNegative());
      assert Divides(x, y, quotient.Value(), r.Value());
      remainder.Assign(r);
    }

    method WithSign(negative: bool) returns (r: Int128)
      requires Value() != MIN
      ensures r == this || fresh(r)
      ensures r.Value() == if negative then -Value() else Value()
    {
      r := this;
      if negative {
        r := Opposite();
      }
    }

    static lemma SignsCorrected(a: int, b: int, q: int, r: int)
      requires Abs(a) == q * Abs(b) + r && 0 <= r < Abs(b)
      ensures Divides(a, b, if (b < 0) != (a < 0) then -q else q, if a < 0 then -r else r)
    {
      assert q * -b == -(q * b) == -q * b && -q * -b == q * b;
    }

    static lemma SmallDividend(a: int, b: int)
      ensures Abs(a) < Abs(b) ==> Divides(a, b, 0, a)
    {
    }

    method Opposite() returns (r: Int128)
      requires Value() != MIN
      ensures fresh(r) && r.Value() == -Value()
    {
      hide Wrap;
      WrapFits(-Value());
      r := Negated();
    }

    /** With the least number as dividend the answer is wrong whatever the divisor. */
    static lemma LeastDividendIsWrong(b: int)
      requires MIN < b <= MAX
      ensures !Divides(MIN, b, 0, MIN)
    {
    }

    // ---------- division by the least number ----------

    /** The source's order on the values of the words. */
    static ghost predicate Below(x: int, y: int) {
      if x / W == y / W then if x / W < 0 then S(x % W) < S(y % W) else x % W < y % W
      else x / W < y / W
    }

    lemma LessIsBelow(b: Int128)
      ensures Less(b) == Below(Value(), b.Value())
    {
      DivUnique(Value(), W, hi, lo);
      DivUnique(b.Value(), W, b.hi, b.lo);
    }

    /** One round of the subtraction loop, for any words. */
    static ghost function Round(dd: int, ds: int, s: Rounds): Rounds {
      if s.Done? then s
      else if Below(s.r, ds) then
        if s.b == 0 then Done
        else Running(s.b - 1, s.q, Wrap(2 * s.r) + if Digit(dd, s.b - 1) then 1 else 0)
      else
        Running(s.b, if s.b >= 128 || Digit(s.q, s.b) then s.q else Wrap(s.q + Pow2(s.b)), Wrap(s.r - ds))
    }

    static ghost function After(dd: int, ds: int, n: nat): Rounds {
      if n == 0 then Running(128, 0, 0) else Round(dd, ds, After(dd, ds, n - 1))
    }

    /** Nothing is below the least number, so that the loops before this one end at once and this one never does. */
    static lemma {:induction false} LeastDivisorLoops(dd: int, n: nat)
      ensures !Below(0, MIN) && !Below(MIN, MIN)
      ensures After(dd, MIN, n) == Running(128, 0, if n % 2 == 0 then 0 else MIN)
    {
      DivUnique(MIN, W, -H, 0);
      WrapLeast();
      if n > 0 {
        LeastDivisorLoops(dd, n - 1);
      }
    }

    method DivAssign(b: Int128) returns (ok: bool)
      requires b.Value() != MIN
      modifies this
      ensures ok <==> old(b.Value()) != 0
      ensures !ok ==> Value() == old(Value())
      ensures ok && old(Value()) != MIN ==> exists r :: Divides(old(Value()), old(b.Value()), Value(), r)
      ensures ok && old(Value()) == MIN ==> Value() == 0
    {
      var dummy := new Int128.Signed(0);
      var q;
      ok, q := Div(b, dummy);
      if ok {
        Assign(q);
      }
    }

    method ModAssign(b: Int128) returns (ok: bool)
      requires b.Value() != MIN
      modifies this
      ensures ok <==> old(b.Value()) != 0
      ensures !ok ==> Value() == old(Value())
      ensures ok && old(Value()) != MIN ==> exists q :: Divides(old(Value()), old(b.Value()), q, Value())
      ensures ok && old(Value()) == MIN ==> Value() == MIN
    {
      var q;
      ok, q := Div(b, this);
    }

    // ---------- text ----------

    /** The digits of a number, most significant first. */
    static ghost function Numeral(n: nat, radix: nat): string
      requires 2 <= radix <= 37
    {
      if n == 0 then "" else Numeral(n / radix, radix) + [DigitChar(n % radix)]
    }

    static function DigitChar(c: nat): char
      requires c < 100
    {
      (c + if c > 9 then 'A' as int - 10 else '0' as int) as char
    }

    static ghost function Text(v: int, radix: nat): string {
      if v == 0 then "0"
      else if radix < 2 || radix > 37 then "(invalid radix)"
      else if v == MIN then "-0"
      else (if v < 0 then "-" else "") + Numeral(Abs(v), radix)
    }

    /** Every digit written stands for a factor of at least two. */
    static ghost predicate Room(i: int, ii: int) {
      128 <= i <= 255 && 0 <= ii && Pow2(255 - i) * ii <= MAX
    }

    static lemma DividesNat(m: int, k: int, q: int, r: int)
      requires 0 < m && 2 <= k && Divides(m, k, q, r)
      ensures q == m / k && r == m % k && 0 <= 2 * q <= m
    {
      DivUnique(m, k, q, r);
      Ordered(m / k, 0, k);
      Grows(m / k, k - 1);
      assert m == m / k * k + m % k && m / k * (k - 1) == m / k * k - m / k;
    }

    static lemma RoomForDigit(i: int, m: int, radix: int)
      requires Room(i, m) && 0 < m && 2 <= radix && 0 <= 2 * (m / radix) <= m
      ensures Room(i - 1, m / radix)
    {
      var p, k := Pow2(255 - i), m / radix;
      assert Pow2(256 - i) == 2 * p;
      Ordered(m, 2 * k, p);
      Ordered(m, 1, p);
      Swapped(2, k, p);
      Pow2Words();
      hide *;
    }

    static lemma JoinNumeral(m: nat, radix: nat, t: string)
      requires 2 <= radix <= 37 && m > 0
      ensures Numeral(m, radix) + t == Numeral(m / radix, radix) + ([DigitChar(m % radix)] + t)
    {
      Grouped(Numeral(m / radix, radix), [DigitChar(m % radix)], t);
    }

    static lemma LeastWords(lo: U64, hi: S64)
      requires hi * W + lo == MIN
      ensures lo == 0
    {
      DivUnique(MIN, W, -H, 0);
      DivUnique(MIN, W, hi, lo);
    }

    static lemma DigitWord(lo: U64, hi: S64)
      requires 0 <= hi * W + lo < 100
      ensures lo % 0x1_0000_0000 == hi * W + lo
    {
    }

    /**
     * Writes the next digit in front of the others. The least number, as its own magnitude and its own remainder,
     * leaves the digit zero.
     */
    method WriteDigit(sz: array<char>, i: nat, radix: nat, aux: Int128, r: Int128) returns (q: Int128)
      requires sz.Length == 256 && 2 <= radix <= 37 && aux.Value() == radix && r != aux && r != this && 0 < i < 256
      requires Value() == MIN || (Room(i, Value()) && 0 < Value())
      modifies sz, r
      ensures fresh(q) && forall k :: i <= k < 256 ==> sz[k] == old(sz[k])
      ensures Value() == MIN ==> q.Value() == 0 && sz[i - 1] == '0'
      ensures Value() != MIN ==> q.Value() == Value() / radix && Room(i - 1, q.Value()) && 2 * q.Value() <= Value()
      ensures Value() != MIN ==> sz[i - 1] == DigitChar(Value() % radix)
    {
      ghost var m := Value();
      var ok;
      ok, q := Div(aux, r);
      if m == MIN {
        LeastWords(r.lo, r.hi);
      } else {
        DividesNat(m, radix, q.Value(), r.Value());
        RoomForDigit(i, m, radix);
        DigitWord(r.lo, r.hi);
      }
      sz[i - 1] := DigitChar(r.lo % 0x1_0000_0000);
    }

    /** All digits of a positive number, from the end of the buffer; the least number has the digit 0. */
    method WriteDigits(sz: array<char>, radix: nat) returns (i: nat)
      requires sz.Length == 256 && 2 <= radix <= 37 && (Value() == MIN || 0 < Value())
      modifies sz
      ensures 128 <= i <= 255
      ensures Value() != MIN ==> sz[i..255] == Numeral(Value(), radix)
      ensures Value() == MIN ==> sz[i..255] == "0"
    {
      hide DigitChar, Divides;
      var r := new Int128.Signed(0);
      var aux := new Int128.Unsigned(radix);
      var ii := this;
      i := 255;
      ghost var v, n := Value(), if Value() == MIN then 0 else Value();
      FirstRoom(n);
      while !ii.IsZero() && i != 0
        invariant fresh(r) && fresh(aux) && (ii == this || fresh(ii)) && aux.Value() == radix
        invariant r != ii && r != aux && v == Value()
        invariant 128 <= i <= 255
        invariant v != MIN ==> Room(i, ii.Value()) && Numeral(n, radix) == Numeral(ii.Value(), radix) + sz[i..255]
        invariant v == MIN ==> if ii.IsZero() then i == 254 && sz[254] == '0' else i == 255 && ii.Value() == MIN
        decreases Abs(ii.Value())
      {
        ghost var t, m := sz[i..255], ii.Value();
        ii := ii.WriteDigit(sz, i, radix, aux, r);
        i := i - 1;
        assert sz[i..255] == [sz[i]] + t;
        if v != MIN {
          JoinNumeral(m, radix, t);
        }
      }
    }

    /** The number in the given radix; digits and sign fit the buffer of 256 characters. */
    method ToString(radix: nat) returns (s: string)
      ensures s == Text(Value(), radix)
      ensures |s| < 256
    {
      hide Numeral;
      if IsZero() {
        return "0";
      }
      if radix < 2 || radix > 37 {
        return "(invalid radix)";
      }
      var sz := new char[256](_ => '\0');
      var ii := Magnitude();
      var i := ii.WriteDigits(sz, radix);
      if IsNegative() {
        i := i - 1;
        sz[i] := '-';
        assert sz[i..255] == ['-'] + sz[i + 1..255];
      }
      s := sz[i..255];
    }

    static lemma FirstRoom(n: nat)
      requires n <= MAX
      ensures Room(255, n)
    {
      assert Pow2(0) == 1;
    }

    /** The value of a character as a digit; for letters the source's bound is one too high. */
    static function DigitOf(c: char, radix: nat): Reading {
      var x, zero, a, A := c as int, '0' as int, 'a' as int, 'A' as int;
      if zero <= x <= '9' as int && x < zero + radix then Digits(x - zero)
      else if a <= x <= a + radix - 10 then Digits(x - a + 10)
      else if A <= x <= A + radix - 10 then Digits(x - A + 10)
      else NoDigit
    }

    /** The one letter too many: G for radix 16, and A for radix 10. */
    static predicate IsExtra(c: char, radix: nat) {
      radix >= 10 && (c as int == 'a' as int + radix - 10 || c as int == 'A' as int + radix - 10)
    }

    /** What is read as a digit is one, unless it is this letter. */
    static lemma ExtraLetter(c: char, radix: nat)
      requires radix == 8 || radix == 10 || radix == 16
      ensures IsExtra(c, radix) ==> DigitOf(c, radix) == Digits(radix)
      ensures DigitOf(c, radix).Digits? ==> (DigitOf(c, radix).value < radix <==> !IsExtra(c, radix))
    {
    }

    /** The digits of a radix, and no other characters. */
    static function ProperDigit(c: char, radix: nat): Reading {
      if IsExtra(c, radix) then NoDigit else DigitOf(c, radix)
    }

    /** Reads proper digits up to the first character that is none. */
    static ghost function Proper(s: string, radix: nat, acc: int): int {
      if s == "" || ProperDigit(s[0], radix).NoDigit? then acc
      else Proper(s[1..], radix, acc * radix + ProperDigit(s[0], radix).value)
    }

    /** Is the first character behind the proper digits the letter too many? */
    static ghost predicate ExtraNext(s: string, radix: nat) {
      s != "" && (IsExtra(s[0], radix) || (ProperDigit(s[0], radix).Digits? && ExtraNext(s[1..], radix)))
    }

    /** Reads digits up to the first character that is none. */
    static ghost function Accumulate(s: string, radix: nat, acc: int): int {
      if s == "" || DigitOf(s[0], radix).NoDigit? then acc
      else Accumulate(s[1..], radix, acc * radix + DigitOf(s[0], radix).value)
    }

    /** The number that a text stands for, without any bound: a sign, a radix prefix, and digits. */
    static ghost function Parsed(s: string): int {
      if s != "" && s[0] == '-' then -ParsedDigits(s[1..]) else ParsedDigits(s)
    }

    static ghost function ParsedDigits(s: string): int {
      if s != "" && s[0] == '0' then
        if |s| > 1 && s[1] == 'x' then Accumulate(s[2..], 16, 0) else Accumulate(s[1..], 8, 0)
      else Accumulate(s, 10, 0)
    }

    /** The same with proper digits. */
    static ghost function Denoted(s: string): int {
      if s != "" && s[0] == '-' then -DenotedDigits(s[1..]) else DenotedDigits(s)
    }

    static ghost function DenotedDigits(s: string): int {
      if s != "" && s[0] == '0' then
        if |s| > 1 && s[1] == 'x' then Proper(s[2..], 16, 0) else Proper(s[1..], 8, 0)
      else Proper(s, 10, 0)
    }

    static ghost predicate ExtraIn(s: string) {
      var t := if s != "" && s[0] == '-' then s[1..] else s;
      if t != "" && t[0] == '0' then |t| > 1 && t[1] == 'x' && ExtraNext(t[2..], 16)
      else ExtraNext(t, 10)
    }

    /** A text is read as the number it denotes if and only if the letter too many is not behind its digits. */
    static lemma ReadAsDenoted(s: string)
      ensures Parsed(s) == Denoted(s) <==> !ExtraIn(s)
    {
      hide Accumulate, Proper, ExtraNext;
      var t := if s != "" && s[0] == '-' then s[1..] else s;
      if t != "" && t[0] == '0' {
        if |t| > 1 && t[1] == 'x' {
          ProperOrExtra(t[2..], 16, 0);
        } else {
          ProperOrExtra(t[1..], 8, 0);
          NoExtra(t[1..]);
        }
      } else {
        ProperOrExtra(t, 10, 0);
      }
    }

    static lemma {:induction false} NoExtra(s: string)
      ensures !ExtraNext(s, 8)
      decreases |s|
    {
      if s != "" {
        NoExtra(s[1..]);
      }
    }

    static lemma {:induction false} ProperOrExtra(s: string, radix: nat, acc: nat)
      requires radix == 8 || radix == 10 || radix == 16
      ensures Accumulate(s, radix, acc) == Proper(s, radix, acc) <==> !ExtraNext(s, radix)
      decreases |s|
    {
      hide DigitOf, IsExtra;
      if s != "" {
        ExtraLetter(s[0], radix);
        if IsExtra(s[0], radix) {
          Ordered(1, acc, 1);
          AccumulateGrows(s[1..], radix, acc * radix + radix);
          LeastGrowth(acc, radix);
        } else if DigitOf(s[0], radix).Digits? {
          ProperOrExtra(s[1..], radix, acc * radix + DigitOf(s[0], radix).value);
        }
      }
    }

    static lemma LeastGrowth(acc: nat, radix: nat)
      requires radix > 0
      ensures acc * radix >= acc
    {
      Grows(acc, radix);
    }

    static lemma {:induction false} AccumulateGrows(s: string, radix: nat, acc: nat)
      requires radix > 0
      ensures Accumulate(s, radix, acc) >= acc
      decreases |s|
    {
      hide DigitOf;
      if s != "" && DigitOf(s[0], radix).Digits? {
        LeastGrowth(acc, radix);
        AccumulateGrows(s[1..], radix, acc * radix + DigitOf(s[0], radix).value);
      }
    }

    /** For instance, of "1a" the source makes twenty. */
    static lemma ExtraRead()
      ensures Parsed("1a") == 20 && Denoted("1a") == 1 && ExtraIn("1a")
      ensures Parsed("0xg") == 16 && Denoted("0xg") == 0 && ExtraIn("0xg")
    {
      assert "1a"[1..] == "a" && "a"[1..] == "" && "0xg"[2..] == "g" && "g"[1..] == "";
      assert Accumulate("a", 10, 1) == 20 && Accumulate("g", 16, 0) == 16;
      assert Proper("a", 10, 1) == 1 && Proper("g", 16, 0) == 0;
      assert ExtraNext("a", 10) && ExtraNext("g", 16);
    }

    /** Up to 31 characters no text leaves the range. */
    static lemma ShortFits(s: string)
      requires |s| <= 31
      ensures MIN <= Parsed(s) <= MAX
    {
      hide Accumulate;
      var t := if s != "" && s[0] == '-' then s[1..] else s;
      if t != "" && t[0] == '0' {
        if |t| > 1 && t[1] == 'x' {
          ShortDigits(t[2..], 16);
        } else {
          ShortDigits(t[1..], 8);
        }
      } else {
        ShortDigits(t, 10);
      }
    }

    static lemma ShortDigits(s: string, radix: nat)
      requires |s| <= 31 && 2 <= radix <= 16
      ensures 0 <= Accumulate(s, radix, 0) <= MAX
    {
      AccumulateGrows(s, radix, 0);
      AccumulateBelow(s, radix, 0);
      Pow2Grows(4 * |s|, 124);
      assert Pow2(125) == 2 * Pow2(124) && Pow2(126) == 2 * Pow2(125) && Pow2(127) == 2 * Pow2(126);
      Pow2Words();
    }

    static lemma {:induction false} AccumulateBelow(s: string, radix: nat, acc: nat)
      requires 2 <= radix <= 16
      ensures Accumulate(s, radix, acc) + 2 <= (acc + 2) * Pow2(4 * |s|)
      decreases |s|
    {
      var p := Pow2(4 * |s|);
      Grows(acc + 2, p);
      if s != "" && DigitOf(s[0], radix).Digits? {
        var next, q := acc * radix + DigitOf(s[0], radix).value, Pow2(4 * |s| - 4);
        AccumulateBelow(s[1..], radix, next);
        assert p == 16 * q by {
          assert Pow2(4 * |s|) == 2 * Pow2(4 * |s| - 1) && Pow2(4 * |s| - 1) == 2 * Pow2(4 * |s| - 2);
          assert Pow2(4 * |s| - 2) == 2 * Pow2(4 * |s| - 3) && Pow2(4 * |s| - 3) == 2 * q;
        }
        hide *;
        NextBelow(acc, radix, next, q);
      }
    }

    static lemma NextBelow(acc: nat, radix: nat, next: nat, q: nat)
      requires 2 <= radix <= 16 && next <= acc * radix + radix && q > 0
      ensures (next + 2) * q <= (acc + 2) * (16 * q)
    {
      AtMostSixteen(acc, radix);
      Ordered(16 * (acc + 2), next + 2, q);
      Swapped(16, acc + 2, q);
      hide *;
    }

    static lemma AtMostSixteen(acc: nat, radix: nat)
      requires radix <= 16
      ensures acc * radix <= 16 * acc
    {
      assert acc * (16 - radix) >= 0;
    }

    static lemma Swapped(a: int, b: int, c: int)
      ensures a * b * c == b * (a * c)
    {
    }

    /**
     * What is stored is the number denoted, modulo 2^128, unless the letter too many is there. If it is, what is stored
     * is wrong as long as nothing wraps around, and so for up to 31 characters.
     */
    static lemma StoredAsDenoted(s: string)
      ensures Wrap(Parsed(s)) == Wrap(Denoted(s)) <==> (Parsed(s) - Denoted(s)) % M == 0
      ensures !ExtraIn(s) ==> Wrap(Parsed(s)) == Wrap(Denoted(s))
      ensures MIN <= Parsed(s) <= MAX || |s| <= 31 ==> (Wrap(Parsed(s)) == Denoted(s) <==> !ExtraIn(s))
    {
      ReadAsDenoted(s);
      hide Parsed, Denoted, ExtraIn, Wrap;
      WrapSame(Parsed(s), Denoted(s));
      if |s| <= 31 {
        ShortFits(s);
      }
      if MIN <= Parsed(s) <= MAX {
        WrapFits(Parsed(s));
      }
    }

    static function Ones(n: nat): string {
      if n == 0 then "" else "1" + Ones(n - 1)
    }

    static ghost function Units(n: nat): nat {
      if n == 0 then 0 else 16 * Units(n - 1) + 1
    }

    static lemma {:induction false} UnitsPower(n: nat)
      ensures 15 * Units(n) + 1 == Pow2(4 * n)
    {
      if n > 0 {
        UnitsPower(n - 1);
        assert Pow2(4 * n) == 2 * Pow2(4 * n - 1) && Pow2(4 * n - 1) == 2 * Pow2(4 * n - 2);
        assert Pow2(4 * n - 2) == 2 * Pow2(4 * n - 3) && Pow2(4 * n - 3) == 2 * Pow2(4 * n - 4);
      }
    }

    static lemma {:induction false} OnesRead(n: nat, k: nat, t: string)
      ensures Accumulate(Ones(n) + t, 16, Units(k)) == Accumulate(t, 16, Units(k + n))
      ensures Proper(Ones(n) + t, 16, Units(k)) == Proper(t, 16, Units(k + n))
      ensures ExtraNext(Ones(n) + t, 16) <==> ExtraNext(t, 16)
      decreases n
    {
      if n == 0 {
        assert Ones(n) + t == t;
      } else {
        var s := Ones(n) + t;
        assert s[0] == '1' && s[1..] == Ones(n - 1) + t;
        OnesRead(n - 1, k + 1, t);
        assert Units(k + 1) == Units(k) * 16 + 1;
      }
    }

    /** A hexadecimal number of 32 digits with the letter too many behind them. */
    static function LongText(): string {
      "0x" + (Ones(31) + "0g")
    }

    /** Its value is wrong by just the modulus. */
    static lemma LongTextRead()
      ensures ExtraIn(LongText()) && Parsed(LongText()) == Denoted(LongText()) + M && 0 <= Denoted(LongText()) <= MAX
    {
      hide Accumulate, Proper, ExtraNext, Ones;
      var s, n := LongText(), Ones(31);
      assert s[0] == '0' && s[1] == 'x' && s[2..] == n + "0g";
      OnesRead(31, 0, "0g");
      TailRead(Units(31));
      UnitsPower(31);
      SixteenTimes();
    }

    static lemma TailRead(u: nat)
      ensures Accumulate("0g", 16, u) == u * 16 * 16 + 16 && Proper("0g", 16, u) == u * 16 && ExtraNext("0g", 16)
    {
      assert "0g"[1..] == "g" && "g"[1..] == "";
      assert Accumulate("g", 16, u * 16) == Accumulate("", 16, u * 16 * 16 + 16);
      assert ExtraNext("g", 16);
    }

    static lemma SixteenTimes()
      ensures M == 16 * Pow2(124) && MAX + 1 == 8 * Pow2(124)
    {
      Pow2Words();
      assert Pow2(127) == 2 * Pow2(126) && Pow2(126) == 2 * Pow2(125) && Pow2(125) == 2 * Pow2(124);
    }

    /** So the letter too many does not show in what is stored. */
    static method ReadByChance() returns (v: Int128)
      ensures ExtraIn(LongText()) && Parsed(LongText()) != Denoted(LongText()) == v.Value()
    {
      hide LongText, Parsed, Denoted, ExtraIn, Wrap;
      LongTextRead();
      v := new Int128.Signed(0);
      v.Set(LongText());
      WrapShift(Denoted(LongText()), 1);
      WrapFits(Denoted(LongText()));
    }

    static lemma {:induction false} AccumulateWraps(s: string, radix: nat, acc: int)
      ensures Wrap(Accumulate(s, radix, Wrap(acc))) == Wrap(Accumulate(s, radix, acc))
      decreases |s|
    {
      hide Wrap, DigitOf;
      if s == "" || DigitOf(s[0], radix).NoDigit? {
        WrapAdd(acc, 0);
      } else {
        var d := DigitOf(s[0], radix).value;
        WrapTimes(acc, radix);
        WrapAdd(acc * radix, d);
        WrapAdd(Wrap(acc) * radix, d);
        AccumulateWraps(s[1..], radix, Wrap(acc) * radix + d);
        AccumulateWraps(s[1..], radix, acc * radix + d);
      }
    }

    static function At(s: string, i: nat): char {
      if i < |s| then s[i] else '\0'
    }

    /** Reads a number from text: whatever it stands for is taken modulo 2^128. */
    method Set(s: string)
      modifies this
      ensures Value() == Wrap(Parsed(s))
      ensures Value() == Wrap(Denoted(s)) <==> (Parsed(s) - Denoted(s)) % M == 0
      ensures !ExtraIn(s) ==> Value() == Wrap(Denoted(s))
      ensures MIN <= Parsed(s) <= MAX || |s| <= 31 ==> (Value() == Denoted(s) <==> !ExtraIn(s))
    {
      hide Wrap, Accumulate, Denoted, ExtraIn;
      StoredAsDenoted(s);
      WrapFits(0);
      lo, hi := 0, 0;
      if s == "" {
        NothingToRead(s, 10);
        return;
      }
      var radix, i, minus := 10, 0, false;
      if At(s, i) == '-' {
        i := i + 1;
        minus := true;
      }
      if At(s, i) == '0' {
        radix := 8;
        i := i + 1;
        if At(s, i) == 'x' {
          radix := 16;
          i := i + 1;
        }
      }
      ghost var u := Accumulate(s[i..], radix, 0);
      assert Parsed(s) == if minus then -u else u by {
        if minus {
          assert |s| > 1 ==> s[1..][1..] == s[2..];
          assert |s| > 2 ==> s[1..][2..] == s[3..];
        }
        assert s[0..] == s;
      }
      i := ReadDigits(s, i, radix);
      if minus {
        WrapNegate(u);
        ghost var v := Value();
        var zero := new Int128.Signed(0);
        zero.SubAssign(this);
        Assign(zero);
      }
    }

    static lemma NothingToRead(s: string, radix: nat)
      requires s == ""
      ensures Accumulate(s, radix, 0) == 0
    {
    }

    method ReadDigits(s: string, start: nat, radix: nat) returns (i: nat)
      requires Value() == 0 && start <= |s| && 8 <= radix <= 16
      modifies this
      ensures Value() == Wrap(Accumulate(s[start..], radix, 0))
    {
      hide Wrap;
      i := start;
      WrapFits(0);
      ghost var u := Accumulate(s[start..], radix, 0);
      while i < |s|
        invariant start <= i <= |s|
        invariant Wrap(Accumulate(s[i..], radix, Value())) == Wrap(u)
      {
        WrapFits(Value());
        if DigitOf(s[i], radix).NoDigit? {
          return;
        }
        ghost var v := Value();
        var n := DigitOf(s[i], radix).value;
        var factor := new Int128.Unsigned(radix);
        MulAssign(factor);
        var summand := new Int128.Unsigned(n);
        AddAssign(summand);
        WrapAdd(v * radix, n);
        assert s[i..][1..] == s[i + 1..];
        AccumulateWraps(s[i + 1..], radix, v * radix + n);
        i := i + 1;
      }
      WrapFits(Value());
    }

    // ---------- printing and reading back ----------

    static lemma Quotient(n: int, radix: int)
      requires n > 0 && radix > 1
      ensures 0 <= n / radix < n && n / radix * radix + n % radix == n && 0 <= n % radix < radix
    {
      var q := n / radix;
      Ordered(q, 0, radix);
      if q >= 0 {
        Grows(q, radix - 1);
        assert q * radix == q * (radix - 1) + q;
      }
    }

    static lemma {:induction false} LeadingDigit(n: nat, radix: nat)
      requires 2 <= radix <= 37 && n > 0
      ensures Numeral(n, radix) != "" && Numeral(n, radix)[0] != '0' && Numeral(n, radix)[0] != '-'
      decreases n
    {
      Quotient(n, radix);
      if n < radix {
        assert n / radix == 0 && n % radix == n;
        assert Numeral(n, radix) == [DigitChar(n)];
      } else {
        LeadingDigit(n / radix, radix);
      }
    }

    // ---------- numerals ----------

    static function Upper(): (s: string)
      ensures |s| == 36
    {
      "0123456789ABCDEFGHIJKLMNOPQRSTUVWXYZ"
    }

    static function Lower(): (s: string)
      ensures |s| == 36
    {
      "0123456789abcdefghijklmnopqrstuvwxyz"
    }

    /** The character is digit `d`, in either case. */
    static ghost predicate IsDigit(c: char, d: nat) {
      d < 36 && (c == Upper()[d] || c == Lower()[d])
    }

    /** The numeral, of digits in any mix of cases, stands for the number `n`. */
    static ghost predicate Writes(s: string, radix: nat, n: nat)
      requires 2 <= radix
    {
      if s == "" then n == 0
      else IsDigit(s[|s| - 1], n % radix) && Writes(s[..|s| - 1], radix, n / radix)
    }

    static lemma DigitCodes(d: nat)
      requires d < 36
      ensures Upper()[d] as int == (if d < 10 then '0' as int + d else 'A' as int + d - 10)
      ensures Lower()[d] as int == (if d < 10 then '0' as int + d else 'a' as int + d - 10)
    {
    }

    /** The characters that are read as a digit: those of either case, and the letter too many. */
    static lemma DigitsRead(c: char, radix: nat)
      requires radix == 8 || radix == 10 || radix == 16
      ensures forall d :: 0 <= d < radix && IsDigit(c, d) ==> DigitOf(c, radix) == Digits(d)
      ensures DigitOf(c, radix).NoDigit? <==> !IsExtra(c, radix) && forall d :: 0 <= d < radix ==> !IsDigit(c, d)
    {
      hide Upper, Lower;
      forall d | 0 <= d < radix && IsDigit(c, d) ensures DigitOf(c, radix) == Digits(d) {
        DigitCodes(d);
      }
      if DigitOf(c, radix).Digits? && !IsExtra(c, radix) {
        ExtraLetter(c, radix);
        DigitCodes(DigitOf(c, radix).value);
        assert IsDigit(c, DigitOf(c, radix).value);
      }
      if IsExtra(c, radix) {
        ExtraLetter(c, radix);
      }
    }

    static lemma {:induction false} WrittenRead(s: string, radix: nat, n: nat, t: string)
      requires (radix == 8 || radix == 10 || radix == 16) && Writes(s, radix, n)
      ensures Accumulate(s + t, radix, 0) == Accumulate(t, radix, n)
      decreases |s|
    {
      hide DigitOf, IsDigit;
      if n > 0 {
        Quotient(n, radix);
      }
      if s == "" {
        assert s + t == t;
      } else {
        var f, c := s[..|s| - 1], s[|s| - 1];
        WrittenRead(f, radix, n / radix, [c] + t);
        assert f + ([c] + t) == s + t && ([c] + t)[1..] == t;
        DigitsRead(c, radix);
        assert n == n / radix * radix + n % radix;
      }
    }

    /** What is written with a prefix is read, with either sign. */
    static lemma WrittenIsRead(s: string, n: nat)
      ensures Writes(s, 16, n) ==> Parsed("0x" + s) == n && Parsed("-" + ("0x" + s)) == 0 - n
      ensures Writes(s, 8, n) ==> Parsed("0" + s) == n && Parsed("-" + ("0" + s)) == 0 - n
      ensures Writes(s, 10, n) && (s == "" || s[0] != '0') ==> Parsed(s) == n && Parsed("-" + s) == 0 - n
    {
      hide DigitOf, Accumulate, Writes, Parsed;
      assert s + "" == s;
      WithPrefix(s);
      NoneLeft(n);
      if Writes(s, 16, n) {
        WrittenRead(s, 16, n, "");
        MinusRead("0x" + s);
      }
      if Writes(s, 8, n) {
        WrittenRead(s, 8, n, "");
        FirstDigit(s, 8, n);
        MinusRead("0" + s);
      }
      if Writes(s, 10, n) {
        WrittenRead(s, 10, n, "");
        FirstDigit(s, 10, n);
        MinusRead(s);
      }
    }

    static lemma NoneLeft(n: nat)
      ensures Accumulate("", 8, n) == n && Accumulate("", 10, n) == n && Accumulate("", 16, n) == n
    {
    }

    /** What the prefix says of the radix. */
    static lemma WithPrefix(s: string)
      ensures Parsed("0x" + s) == Accumulate(s, 16, 0)
      ensures (s == "" || s[0] != 'x') ==> Parsed("0" + s) == Accumulate(s, 8, 0)
      ensures (s == "" || (s[0] != '0' && s[0] != '-')) ==> Parsed(s) == Accumulate(s, 10, 0)
    {
      hide Accumulate;
      assert ("0x" + s)[2..] == s && ("0" + s)[1..] == s;
    }

    static lemma MinusRead(s: string)
      requires s == "" || s[0] != '-'
      ensures Parsed("-" + s) == -Parsed(s)
    {
      hide Accumulate;
      assert ("-" + s)[1..] == s;
    }

    static lemma {:induction false} FirstDigit(s: string, radix: nat, n: nat)
      requires (radix == 8 || radix == 10) && Writes(s, radix, n)
      ensures s != "" ==> s[0] != 'x' && s[0] != '-'
      decreases |s|
    {
      hide Upper, Lower;
      if s != "" {
        DigitCodes(n % radix);
        FirstDigit(s[..|s| - 1], radix, n / radix);
      }
    }

    /** The texts are the numerals, with a sign; for radix 37 there is one more digit, a bracket. */
    static lemma TextWrites(v: int, radix: nat)
      requires MIN < v <= MAX && 2 <= radix <= 36
      ensures v == 0 ==> Text(v, radix) == "0"
      ensures v > 0 ==> Writes(Text(v, radix), radix, v)
      ensures v < 0 ==> Text(v, radix)[0] == '-' && Writes(Text(v, radix)[1..], radix, -v)
      ensures DigitChar(36) == '['
    {
      hide Numeral, Writes;
      NumeralWrites(Abs(v), radix);
      assert v < 0 ==> Text(v, radix)[1..] == Numeral(Abs(v), radix);
      assert v > 0 ==> Text(v, radix) == Numeral(Abs(v), radix);
    }

    static lemma {:induction false} NumeralWrites(n: nat, radix: nat)
      requires 2 <= radix <= 36
      ensures Writes(Numeral(n, radix), radix, n)
      decreases n
    {
      hide Upper, Lower;
      if n != 0 {
        Quotient(n, radix);
        NumeralWrites(n / radix, radix);
        var s := Numeral(n, radix);
        assert s[..|s| - 1] == Numeral(n / radix, radix) && s[|s| - 1] == DigitChar(n % radix);
        DigitCodes(n % radix);
      }
    }

    /** What is printed reads back as the same number, with the prefix that the parser knows for the radix. */
    static lemma PrintedIsRead(n: nat)
      ensures Parsed(if n == 0 then "0" else Numeral(n, 10)) == n
      ensures Parsed("0x" + Numeral(n, 16)) == n && Parsed("0" + Numeral(n, 8)) == n
      ensures n != 0 ==> Parsed("-" + Numeral(n, 10)) == 0 - n
    {
      hide Numeral, Writes, Parsed;
      NumeralWrites(n, 10);
      NumeralWrites(n, 8);
      NumeralWrites(n, 16);
      WrittenIsRead(Numeral(n, 10), n);
      WrittenIsRead(Numeral(n, 8), n);
      WrittenIsRead(Numeral(n, 16), n);
      if n == 0 {
        ZeroRead();
      } else {
        LeadingDigit(n, 10);
      }
    }

    static lemma ZeroRead()
      ensures Parsed("0") == 0
    {
      assert "0"[1..] == "";
    }

    /** Printing in decimal and reading back gives the same number, unless it is the least one. */
    static lemma TextReadsBack(v: int)
      requires MIN <= v <= MAX
      ensures Wrap(Parsed(Text(v, 10))) == v <==> v != MIN
    {
      hide Numeral, Wrap, Accumulate;
      if v == MIN {
        assert "-0"[1..] == "0" && "0"[1..] == "";
        NothingToRead("0"[1..], 8);
        WrapFits(0);
      } else {
        PrintedIsRead(Abs(v));
        WrapFits(v);
        assert "" + Numeral(Abs(v), 10) == Numeral(Abs(v), 10);
      }
    }

    method RoundTrip() returns (w: Int128)
      ensures fresh(w) && (w.Value() == Value() <==> Value() != MIN)
    {
      var s := ToString(10);
      w := new Int128.Signed(0);
      w.Set(s);
      TextReadsBack(Value());
    }
  }
}
