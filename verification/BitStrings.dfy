/** Sequences of bits, most significant first, and the bytes that hold them. */
module BitStrings {
  import opened MachineWords
  import opened Sequences

  type Byte = x: int | 0 <= x < 256

  /** The lowest `n` bits of a number. */
  ghost function BitsOf(v: nat, n: nat): (b: seq<bool>)
    ensures |b| == n
  {
    if n == 0 then [] else BitsOf(v / 2, n - 1) + [v % 2 == 1]
  }

  ghost function FromBits(b: seq<bool>): nat {
    if b == [] then 0 else 2 * FromBits(b[..|b| - 1]) + if b[|b| - 1] then 1 else 0
  }

  ghost function Zeros(n: nat): (z: seq<bool>)
    ensures |z| == n && forall i :: 0 <= i < n ==> !z[i]
  {
    seq(n, _ => false)
  }

  lemma {:induction false} FromBitsOf(v: nat, n: nat)
    ensures FromBits(BitsOf(v, n)) == v % Pow2(n)
  {
    if n == 0 {
      DivUnique(v, 1, v, 0);
    } else {
      FromBitsOf(v / 2, n - 1);
      ModOfHalf(v, Pow2(n - 1));
      assert BitsOf(v, n)[..n - 1] == BitsOf(v / 2, n - 1);
    }
  }

  lemma {:induction false} BitsOfFrom(b: seq<bool>)
    ensures BitsOf(FromBits(b), |b|) == b && FromBits(b) < Pow2(|b|)
  {
    if b != [] {
      BitsOfFrom(b[..|b| - 1]);
    }
  }

  lemma {:induction false} BitsOfZero(n: nat)
    ensures BitsOf(0, n) == Zeros(n)
  {
    if n > 0 {
      BitsOfZero(n - 1);
      assert Zeros(n) == Zeros(n - 1) + [false];
    }
  }

  /** High bits first, then low bits. */
  lemma {:induction false} BitsOfJoin(v: nat, m: nat, n: nat)
    ensures v / Pow2(n) >= 0 && BitsOf(v, m + n) == BitsOf(v / Pow2(n), m) + BitsOf(v, n)
  {
    if n == 0 {
      DivUnique(v, 1, v, 0);
      assert BitsOf(v, m) + [] == BitsOf(v, m);
    } else {
      BitsOfJoin(v / 2, m, n - 1);
      DivTwice(v, 2, Pow2(n - 1));
      Grouped(BitsOf(v / Pow2(n), m), BitsOf(v / 2, n - 1), [v % 2 == 1]);
    }
  }

  lemma {:induction false} FromBitsJoin(a: seq<bool>, b: seq<bool>)
    ensures FromBits(a + b) == FromBits(a) * Pow2(|b|) + FromBits(b)
  {
    if b == [] {
      assert a + b == a;
    } else {
      var c := b[..|b| - 1];
      FromBitsJoin(a, c);
      assert (a + b)[..|a + b| - 1] == a + c;
      assert FromBits(a) * Pow2(|b|) == 2 * (FromBits(a) * Pow2(|c|)) by {
        Double(FromBits(a), Pow2(|c|));
      }
    }
  }

  /** Only the lowest `n` bits count. */
  lemma BitsOfMod(v: nat, n: nat)
    ensures 0 <= v % Pow2(n) && BitsOf(v % Pow2(n), n) == BitsOf(v, n)
  {
    FromBitsOf(v, n);
    BitsOfFrom(BitsOf(v, n));
  }

  ghost predicate Blank(b: seq<bool>) {
    b == Zeros(|b|)
  }

  lemma NoBits(v: nat, n: nat)
    ensures Blank(BitsOf(v, n)) <==> v % Pow2(n) == 0
  {
    FromBitsOf(v, n);
    FromZeros(n);
    BitsOfMod(v, n);
    BitsOfZero(n);
  }

  lemma BlankJoin(a: seq<bool>, b: seq<bool>)
    ensures Blank(a + b) <==> Blank(a) && Blank(b)
  {
    Cut(a, b, []);
    assert Zeros(|a| + |b|) == Zeros(|a|) + Zeros(|b|);
    Cut(Zeros(|a|), Zeros(|b|), []);
  }

  /** A number made of a high and a low part. */
  lemma BitsOfSum(x: nat, y: nat, m: nat, n: nat)
    requires y < Pow2(n)
    ensures x * Pow2(n) + y >= 0 && BitsOf(x * Pow2(n) + y, m + n) == BitsOf(x, m) + BitsOf(y, n)
  {
    MultipleGrows(x, Pow2(n));
    DivUnique(x * Pow2(n) + y, Pow2(n), x, y);
    BitsOfJoin(x * Pow2(n) + y, m, n);
    BitsOfMod(x * Pow2(n) + y, n);
  }

  lemma {:induction false} BitsOfDigit(v: nat, n: nat, i: nat)
    requires i < n
    ensures BitsOf(v, n)[i] == Digit(v, n - 1 - i)
  {
    if i < n - 1 {
      BitsOfDigit(v / 2, n - 1, i);
      DigitOfHalf(v, n - 2 - i);
    } else {
      assert Pow2(0) == 1;
    }
  }

  // ---------- bytes ----------

  ghost function AllBits(data: seq<Byte>): (b: seq<bool>)
    ensures |b| == 8 * |data|
  {
    if data == [] then [] else AllBits(data[..|data| - 1]) + BitsOf(data[|data| - 1], 8)
  }

  lemma AllBitsAppend(data: seq<Byte>, v: Byte)
    ensures AllBits(data + [v]) == AllBits(data) + BitsOf(v, 8)
  {
    assert (data + [v])[..|data|] == data;
  }

  lemma {:induction false} AllBitsJoin(a: seq<Byte>, b: seq<Byte>)
    ensures AllBits(a + b) == AllBits(a) + AllBits(b)
  {
    if b == [] {
      assert a + b == a;
      assert AllBits(a) + [] == AllBits(a);
    } else {
      assert (a + b)[..|a + b| - 1] == a + b[..|b| - 1];
      AllBitsJoin(a, b[..|b| - 1]);
      Grouped(AllBits(a), AllBits(b[..|b| - 1]), BitsOf(b[|b| - 1], 8));
    }
  }

  lemma Cut<T>(a: seq<T>, b: seq<T>, c: seq<T>)
    ensures (a + b)[..|a|] == a && (a + b)[|a|..] == b
    ensures (a + b + c)[|a|..|a| + |b|] == b
  {
  }

  /** The bits of one byte among all. */
  lemma AllBitsAt(data: seq<Byte>, k: nat)
    requires k < |data|
    ensures AllBits(data)[8 * k..8 * k + 8] == BitsOf(data[k], 8)
  {
    hide *;
    Around(data, k);
    AllBitsMiddle(data[..k], data[k], data[k + 1..]);
  }

  lemma Around<T>(s: seq<T>, k: nat)
    requires k < |s|
    ensures s == s[..k] + [s[k]] + s[k + 1..]
  {
  }

  lemma AllBitsMiddle(a: seq<Byte>, b: Byte, c: seq<Byte>)
    ensures AllBits(a + [b] + c)[8 * |a|..8 * |a| + 8] == BitsOf(b, 8)
  {
    hide *;
    AllBitsJoin(a + [b], c);
    AllBitsAppend(a, b);
    Cut(AllBits(a), BitsOf(b, 8), AllBits(c));
  }

  /** The bytes hold exactly the bits: as few bytes as possible, padded with zeros. */
  ghost predicate Holds(data: seq<Byte>, bits: seq<bool>) {
    |data| == (|bits| + 7) / 8 && AllBits(data) == bits + Zeros(8 * |data| - |bits|)
  }

  lemma BytePower()
    ensures Pow2(8) == 256 && Pow2(4) == 16
  {
    assert Pow2(4) == 16;
    Pow2Add(4, 4);
  }

  lemma FromZeros(n: nat)
    ensures FromBits(Zeros(n)) == 0
  {
    BitsOfZero(n);
    FromBitsOf(0, n);
    DivUnique(0, Pow2(n), 0, 0);
  }

  /** A number that shows some bits and then zeros. */
  lemma Padded(v: nat, u: seq<bool>, n: nat)
    requires v < Pow2(|u| + n) && BitsOf(v, |u| + n) == u + Zeros(n)
    ensures v == FromBits(u) * Pow2(n) && FromBits(u) < Pow2(|u|)
  {
    hide *;
    FromBitsOf(v, |u| + n);
    DivUnique(v, Pow2(|u| + n), 0, v);
    FromZeros(n);
    FromBitsJoin(u, Zeros(n));
    BitsOfFrom(u);
  }

  lemma BitsBehind(u: seq<bool>, y: nat, n: nat)
    requires y < Pow2(n)
    ensures FromBits(u) * Pow2(n) + y >= 0 && BitsOf(FromBits(u) * Pow2(n) + y, |u| + n) == u + BitsOf(y, n)
  {
    BitsOfSum(FromBits(u), y, |u|, n);
    BitsOfFrom(u);
  }

  /** Or puts low bits into a number that shows `u` and zeros. */
  lemma Merged(v: nat, u: seq<bool>, y: nat, n: nat)
    requires v < Pow2(|u| + n) && BitsOf(v, |u| + n) == u + Zeros(n) && y < Pow2(n)
    ensures Or(v, y) < Pow2(|u| + n) && BitsOf(Or(v, y), |u| + n) == u + BitsOf(y, n)
  {
    Padded(v, u, n);
    OrIsSum(y, FromBits(u), n);
    BitsBehind(u, y, n);
    Pow2Grows(n, |u| + n);
    BitwiseFits(v, y, |u| + n);
  }

  /** The last byte of bits that do not fill it. */
  lemma LastByte(data: seq<Byte>, bits: seq<bool>) returns (front: seq<bool>, u: seq<bool>)
    requires Holds(data, bits) && |bits| % 8 != 0
    ensures |data| > 0 && bits == front + u && |u| == |bits| % 8 && |front| == 8 * (|data| - 1)
    ensures AllBits(data[..|data| - 1]) == front && BitsOf(data[|data| - 1], 8) == u + Zeros(8 - |u|)
  {
    var n := 8 * (|data| - 1);
    front, u := bits[..n], bits[n..];
    assert bits == front + u;
    var z := Zeros(8 * |data| - |bits|);
    Grouped(front, u, z);
    Cut(front, u + z, []);
    Cut(AllBits(data[..|data| - 1]), BitsOf(data[|data| - 1], 8), []);
  }

  /** Whole bytes in front, then bytes that show the remaining bits and zeros. */
  lemma Appended(data: seq<Byte>, front: seq<bool>, more: seq<Byte>, rest: seq<bool>, z: nat)
    requires AllBits(data) == front && AllBits(more) == rest + Zeros(z) && z < 8
    ensures Holds(data + more, front + rest)
  {
    AllBitsJoin(data, more);
    Grouped(front, rest, Zeros(z));
  }

  lemma LengthHeld(data: seq<Byte>, bits: seq<bool>)
    requires Holds(data, bits)
    ensures |data| == (|bits| + 7) / 8
  {
  }

  /** The bytes show the given bits from position `n` on. */
  ghost predicate Shows(data: seq<Byte>, n: nat, b: seq<bool>) {
    n + |b| <= 8 * |data| && AllBits(data)[n..n + |b|] == b
  }

  lemma HoldsWhole(data: seq<Byte>, bits: seq<bool>)
    requires |bits| % 8 == 0
    ensures Holds(data, bits) <==> AllBits(data) == bits
  {
    assert bits + Zeros(0) == bits;
  }

  lemma AllBitsOfTwo(a: Byte, b: Byte)
    ensures AllBits([a, b]) == BitsOf(a, 8) + BitsOf(b, 8)
  {
    AllBitsAppend([], a);
    assert AllBits([]) + BitsOf(a, 8) == BitsOf(a, 8);
    AllBitsAppend([a], b);
    assert [a] + [b] == [a, b] && [] + [a] == [a];
  }

  lemma WindowOf<T>(a: seq<T>, b: seq<T>, c: seq<T>, d: seq<T>)
    ensures (a + b + (c + d))[|a|..|a| + |b| + |c|] == b + c
  {
  }

  /** The window of eight bits from offset m on, in two bytes. */
  lemma Window(a: Byte, b: Byte, m: nat)
    requires m < 8
    ensures FromBits(AllBits([a, b])[m..m + 8]) == a % Pow2(8 - m) * Pow2(m) + b / Pow2(8 - m)
  {
    hide *;
    var n := 8 - m;
    var p, q := Pow2(m), Pow2(n);
    BytePower();
    Pow2Add(m, n);
    assert p * q == 256;
    DivBelow(a, q, p);
    DivBelow(b, q, p);
    AllBitsOfTwo(a, b);
    BitsOfJoin(a, m, n);
    BitsOfJoin(b, m, n);
    WindowOf(BitsOf(a / q, m), BitsOf(a, n), BitsOf(b / q, m), BitsOf(b, n));
    WindowValue(a, b, m, n);
  }

  lemma WindowValue(a: nat, b: nat, m: nat, n: nat)
    requires 0 <= b / Pow2(n) < Pow2(m)
    ensures FromBits(BitsOf(a, n) + BitsOf(b / Pow2(n), m)) == a % Pow2(n) * Pow2(m) + b / Pow2(n)
  {
    hide *;
    var x := b / Pow2(n);
    FromBitsJoin(BitsOf(a, n), BitsOf(x, m));
    FromBitsOf(a, n);
    FromBitsOf(x, m);
    DivUnique(x, Pow2(m), 0, x);
  }

  // ---------- integers of several bytes ----------

  /** Little-endian: the lowest byte first. */
  ghost function LittleBits(v: nat, n: nat): (b: seq<bool>)
    ensures |b| == 8 * n
  {
    if n == 0 then [] else LittleBits(v, n - 1) + BitsOf(Shifted(v, n - 1), 8)
  }

  lemma LittleStep(v: nat, n: nat)
    ensures LittleBits(v, n + 1) == LittleBits(v, n) + BitsOf(Shifted(v, n), 8)
  {
  }

  /** Byte number `k` of a number, and what is above it. */
  function Shifted(v: nat, k: nat): (s: nat) {
    Pow2Quotient(v, 8 * k);
    v / Pow2(8 * k)
  }

  lemma Pow2Quotient(v: nat, n: nat)
    ensures 0 <= v / Pow2(n)
  {
    Ordered(v / Pow2(n), 0, Pow2(n));
    if v / Pow2(n) < 0 {
      MultipleGrows(v / Pow2(n), Pow2(n));
    }
  }

  ghost function FromLittle(b: seq<bool>): nat
    requires |b| % 8 == 0
  {
    if b == [] then 0
    else FromLittle(b[..|b| - 8]) + Scale(FromBits(b[|b| - 8..]), |b| - 8)
  }

  ghost function Scale(x: nat, n: nat): (y: nat)
    ensures y == x * Pow2(n)
  {
    MultipleGrows(x, Pow2(n));
    x * Pow2(n)
  }

  /** The number made of the lowest `n` bytes. */
  ghost function LowBytes(v: nat, n: nat): int {
    v % Pow2(8 * n)
  }

  lemma {:induction false} FromLittleBits(v: nat, n: nat)
    ensures FromLittle(LittleBits(v, n)) == LowBytes(v, n)
  {
    hide *;
    if n == 0 {
      FromNothing(v);
    } else {
      FromLittleBits(v, n - 1);
      LittleStep(v, n - 1);
      FromLittleStep(LittleBits(v, n - 1), BitsOf(Shifted(v, n - 1), 8));
      LittleMod(v, n - 1);
    }
  }

  lemma LowBytesAre(v: nat, n: nat)
    ensures LowBytes(v, n) == v % Pow2(8 * n)
  {
  }

  lemma FromNothing(v: nat)
    ensures FromLittle(LittleBits(v, 0)) == 0 == LowBytes(v, 0)
  {
    DivUnique(v, 1, v, 0);
  }

  lemma LittleMod(v: nat, k: nat)
    ensures LowBytes(v, k + 1) == LowBytes(v, k) + Scale(FromBits(BitsOf(Shifted(v, k), 8)), 8 * k)
  {
    hide BitsOf, FromBits, Pow2;
    FromBitsOf(Shifted(v, k), 8);
    ModOfProduct(v, 8 * k, 8);
  }

  lemma FromLittleStep(low: seq<bool>, high: seq<bool>)
    requires |low| % 8 == 0 && |high| == 8
    ensures FromLittle(low + high) == FromLittle(low) + Scale(FromBits(high), |low|)
  {
    hide FromBits, Pow2, Scale;
    Cut(low, high, []);
  }

  lemma {:induction false} NoLittleBits(v: nat, n: nat)
    ensures Blank(LittleBits(v, n)) <==> LowBytes(v, n) == 0
  {
    hide *;
    if n == 0 {
      NoneBlank(v);
    } else {
      NoLittleBits(v, n - 1);
      LittleStep(v, n - 1);
      BlankJoin(LittleBits(v, n - 1), BitsOf(Shifted(v, n - 1), 8));
      LittleModZero(v, n - 1);
    }
  }

  lemma NoneBlank(v: nat)
    ensures Blank(LittleBits(v, 0)) && LowBytes(v, 0) == 0
  {
    DivUnique(v, 1, v, 0);
    assert LittleBits(v, 0) == Zeros(0);
  }

  lemma LittleModZero(v: nat, k: nat)
    ensures LowBytes(v, k + 1) == 0 <==> LowBytes(v, k) == 0 && Blank(BitsOf(Shifted(v, k), 8))
  {
    hide BitsOf, FromBits, Pow2, Blank;
    var w := Shifted(v, k);
    NoBits(w, 8);
    FromBitsOf(w, 8);
    LittleMod(v, k);
    MultipleGrows(w % Pow2(8), Pow2(8 * k));
  }

  lemma ModOfProduct(v: nat, m: nat, n: nat)
    ensures v % Pow2(m + n) == v % Pow2(m) + v / Pow2(m) % Pow2(n) * Pow2(m)
  {
    hide Pow2;
    Pow2Add(m, n);
    RemainderOfRemainder(v, Pow2(m), Pow2(n));
  }

  lemma RemainderOfRemainder(v: int, p: int, q: int)
    requires p > 0 && q > 0
    ensures p * q > 0 && v % (p * q) == v % p + v / p % q * p
  {
    var w, r := v / p, v % p;
    var c, d := w / q, w % q;
    Distribute(c, q, d, p);
    Scaled(d, q, p);
    Parts(w, q, p, c, d);
    DivUnique(v, p * q, c, d * p + r);
  }

  lemma Parts(w: int, q: int, p: int, c: int, d: int)
    requires w == c * q + d
    ensures w * p == (c * q + d) * p
  {
  }

  /** Big-endian: the bytes from the highest down to number `k`. */
  ghost function HighBytes(v: nat, n: nat, k: nat): (b: seq<bool>)
    requires k <= n
    ensures |b| == 8 * (n - k)
  {
    BitsOf(Shifted(v, k), 8 * (n - k))
  }

  lemma HighStep(v: nat, n: nat, k: nat)
    requires k < n
    ensures HighBytes(v, n, k) == HighBytes(v, n, k + 1) + BitsOf(Shifted(v, k), 8)
  {
    hide BitsOf, Pow2, Shifted;
    BigStep(v, k, 8 * (n - k - 1));
  }

  lemma BigStep(v: nat, j: nat, m: nat)
    ensures BitsOf(Shifted(v, j + 1), m) + BitsOf(Shifted(v, j), 8) == BitsOf(Shifted(v, j), m + 8)
  {
    hide BitsOf, Pow2;
    BitsOfJoin(Shifted(v, j), m, 8);
    Pow2Add(8 * j, 8);
    DivTwice(v, Pow2(8 * j), Pow2(8));
  }

  lemma AllBytes(v: nat, n: nat)
    ensures HighBytes(v, n, 0) == BitsOf(v, 8 * n) && (Blank(HighBytes(v, n, 0)) <==> v % Pow2(8 * n) == 0)
  {
    hide BitsOf, Blank;
    DivUnique(v, 1, v, 0);
    NoBits(v, 8 * n);
  }
}
