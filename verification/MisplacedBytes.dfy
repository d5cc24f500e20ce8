/** Bytes that are written across a byte boundary: what they should look like, and what the source makes of them. */
module MisplacedBytes {
  import opened MachineWords
  import opened BitStrings
  import opened Sequences

  // ---------- one byte behind bits ----------

  /** Or puts low bits into a byte that shows `u` and zeros. */
  lemma MergeByte(last: Byte, u: seq<bool>, y: nat)
    requires |u| <= 8 && BitsOf(last, 8) == u + Zeros(8 - |u|) && y < Pow2(8 - |u|)
    ensures Or(last, y) < 256 && BitsOf(Or(last, y), 8) == u + BitsOf(y, 8 - |u|)
  {
    BytePower();
    Merged(last, u, y, 8 - |u|);
  }

  lemma NewByte(data: seq<Byte>, bits: seq<bool>, value: Byte)
    requires Holds(data, bits) && |bits| % 8 == 0
    ensures Holds(data + [value], bits + BitsOf(value, 8))
  {
    hide *;
    AllBitsAppend(data, value);
    HoldsWhole(data, bits);
    HoldsWhole(data + [value], bits + BitsOf(value, 8));
  }

  /** The two parts of a byte that is written at bit offset l1, as the source computes them. */
  function FirstPart(value: Byte, l1: nat): nat
    requires 0 < l1 < 8
  {
    Pow2Quotient(And(value, 255 * Pow2(8 - l1)), 8 - l1);
    And(value, 255 * Pow2(8 - l1)) / Pow2(8 - l1)
  }

  function SecondPart(value: Byte, l1: nat): Byte
    requires 0 < l1 < 8
  {
    And(value, 255 / Pow2(l1)) * Pow2(l1) % 256
  }

  lemma Parts(value: Byte, l1: nat)
    requires 0 < l1 < 8
    ensures var p, q := Pow2(l1), Pow2(8 - l1);
      p * q == 256 && 0 <= value / q < p && FirstPart(value, l1) == value / q &&
      SecondPart(value, l1) == (value % q) * p
  {
    var p, q := Pow2(l1), Pow2(8 - l1);
    BytePower();
    Pow2Add(l1, 8 - l1);
    DivBelow(value, q, p);
    FirstMask(value, l1);
    SecondMask(value, l1, p, q);
  }

  lemma FirstMask(value: Byte, l1: nat)
    requires 0 < l1 < 8
    ensures FirstPart(value, l1) == value / Pow2(8 - l1)
  {
    hide Pow2, And;
    BytePower();
    ByteMask(8 - l1);
    AndNotMask(value, 8 - l1, 16 - l1);
    WholePart(value, Pow2(8 - l1));
  }

  lemma ByteMask(n: nat)
    ensures 255 * Pow2(n) == Pow2(n + 8) - Pow2(n) && Pow2(n + 8) >= 256
  {
    BytePower();
    Pow2Add(8, n);
    Pow2Grows(8, n + 8);
  }

  lemma SecondMask(value: Byte, l1: nat, p: int, q: int)
    requires 0 < l1 < 8 && p == Pow2(l1) && q == Pow2(8 - l1) && p * q == 256
    ensures SecondPart(value, l1) == (value % q) * p
  {
    AndMask(value, 8 - l1);
    Times(q, p);
    DivUnique(255, p, q - 1, p - 1);
    Scaled(value % q, q, p);
    DivUnique((value % q) * p, 256, 0, (value % q) * p);
  }

  lemma Times(q: int, p: int)
    ensures (q - 1) * p + (p - 1) == p * q - 1
  {
  }

  /** The last byte and the one after it, once a byte has been written between them. */
  ghost function Split(last: Byte, value: Byte, l1: nat): (s: seq<Byte>)
    requires 0 < l1 < 8 && FirstPart(value, l1) < 256
    ensures |s| == 2
  {
    var x := Or(last, FirstPart(value, l1));
    [if x < 256 then x else 0, SecondPart(value, l1)]
  }

  lemma InByte(last: Byte, value: Byte, l1: nat)
    requires 0 < l1 < 8
    ensures FirstPart(value, l1) < 256 && Or(last, FirstPart(value, l1)) < 256
    ensures Split(last, value, l1) == [Or(last, FirstPart(value, l1)), SecondPart(value, l1)]
  {
    Parts(value, l1);
    BytePower();
    Pow2Grows(l1, 8);
    BitwiseFits(last, FirstPart(value, l1), 8);
  }

  /** Half a byte at a time it works: both parts have four bits. */
  lemma HalfByte(data: seq<Byte>, bits: seq<bool>, value: Byte)
    requires Holds(data, bits) && |bits| % 8 == 4
    ensures |data| > 0 && FirstPart(value, 4) < 256
    ensures Or(data[|data| - 1], FirstPart(value, 4)) < 256
    ensures Holds(data[..|data| - 1] + Split(data[|data| - 1], value, 4), bits + BitsOf(value, 8))
  {
    var front, u := LastByte(data, bits);
    var last := data[|data| - 1];
    HalfByteBits(last, u, value);
    Appended(data[..|data| - 1], front, Split(last, value, 4), u + BitsOf(value, 8), 4);
    Grouped(front, u, BitsOf(value, 8));
  }

  lemma HalfByteBits(last: Byte, u: seq<bool>, value: Byte)
    requires |u| == 4 && BitsOf(last, 8) == u + Zeros(4)
    ensures FirstPart(value, 4) < 256 && Or(last, FirstPart(value, 4)) < 256
    ensures AllBits(Split(last, value, 4)) == u + BitsOf(value, 8) + Zeros(4)
  {
    hide AllBits, BitsOf, Or, Pow2, FirstPart, SecondPart;
    BytePower();
    Parts(value, 4);
    var x, y := value / 16, value % 16;
    MergeByte(last, u, x);
    BitsOfSum(y, 0, 4, 4);
    BitsOfZero(4);
    BitsOfMod(value, 4);
    BitsOfJoin(value, 4, 4);
    AllBitsOfTwo(Or(last, x), y * 16);
    Grouped(u, BitsOf(x, 4), BitsOf(value, 4));
    Grouped(u + BitsOf(x, 4), BitsOf(value, 4), Zeros(4));
  }

  /** A zero byte does no harm at any offset. */
  lemma ZeroByte(data: seq<Byte>, bits: seq<bool>)
    requires Holds(data, bits) && |bits| % 8 != 0
    ensures |data| > 0 && FirstPart(0, |bits| % 8) < 256
    ensures Or(data[|data| - 1], FirstPart(0, |bits| % 8)) < 256
    ensures Holds(data[..|data| - 1] + Split(data[|data| - 1], 0, |bits| % 8), bits + BitsOf(0, 8))
  {
    var front, u := LastByte(data, bits);
    var last, l1 := data[|data| - 1], |u|;
    Parts(0, l1);
    DivUnique(0, Pow2(8 - l1), 0, 0);
    assert Split(last, 0, l1) == [last, 0];
    BitsOfZero(8);
    AllBitsOfTwo(last, 0);
    assert u + Zeros(8 - l1) + Zeros(8) == (u + Zeros(8)) + Zeros(8 - l1);
    Appended(data[..|data| - 1], front, [last, 0], u + Zeros(8), 8 - l1);
    Grouped(front, u, Zeros(8));
  }

  lemma {:induction false} OrMod(a: nat, b: nat, n: nat)
    ensures Or(a, b) % Pow2(n) == Or(a % Pow2(n), b % Pow2(n))
  {
    if n == 0 {
      DivUnique(a, 1, a, 0);
      DivUnique(b, 1, b, 0);
      DivUnique(Or(a, b), 1, Or(a, b), 0);
    } else {
      OrMod(a / 2, b / 2, n - 1);
      var q := Pow2(n - 1);
      ModOfHalf(a, q);
      ModOfHalf(b, q);
      ModOfHalf(Or(a, b), q);
      OrHalves(a, b);
      OrHalves(a % Pow2(n), b % Pow2(n));
    }
  }

  /** What eight bits from offset l1 on show after the source has split the byte there. */
  ghost function Shown(v: Byte, p: int, q: int): int
    requires p > 0 && q > 0
  {
    v / q % q * p + v % q * p / q
  }

  lemma ShownWrong1(v: Byte)
    ensures Shown(v, 2, 128) == v ==> v == 0
  {
    var w, x := v / 128, v % 128;
    assert v == 128 * w + x && 0 <= w < 2;
    assert w % 128 == w && x * 2 / 128 == x / 64;
  }

  lemma ShownWrong2(v: Byte)
    ensures Shown(v, 4, 64) == v ==> v == 0
  {
    var w, x := v / 64, v % 64;
    assert v == 64 * w + x && 0 <= w < 4;
    assert w % 64 == w && x * 4 / 64 == x / 16;
  }

  lemma ShownWrong3(v: Byte)
    ensures Shown(v, 8, 32) == v ==> v == 0
  {
    var w, x := v / 32, v % 32;
    assert v == 32 * w + x && 0 <= w < 8;
    assert w % 32 == w && x * 8 / 32 == x / 4;
  }

  lemma ShownWrong5(v: Byte)
    ensures Shown(v, 32, 8) == v ==> v == 0
  {
    var x, z, t := v % 8, v / 8 % 8, v / 64;
    assert v / 8 == 8 * t + z;
    assert v == 64 * t + 8 * z + x && x * 32 / 8 == 4 * x;
    assert 3 * (8 * z + x) == 64 * t ==> 8 * z + x == 0;
  }

  lemma ShownWrong6(v: Byte)
    ensures Shown(v, 64, 4) == v ==> v == 0
  {
    var x, z, t := v % 4, v / 4 % 4, v / 16;
    assert v / 4 == 4 * t + z;
    assert v == 16 * t + 4 * z + x && x * 64 / 4 == 16 * x;
    assert 15 * (4 * z + x) == 16 * t ==> 4 * z + x == 0;
  }

  lemma ShownWrong7(v: Byte)
    ensures Shown(v, 128, 2) == v ==> v == 0
  {
    var x, z, t := v % 2, v / 2 % 2, v / 4;
    assert v / 2 == 2 * t + z;
    assert v == 4 * t + 2 * z + x && x * 128 / 2 == 64 * x;
    assert 63 * (2 * z + x) == 4 * t ==> 2 * z + x == 0;
  }

  lemma PowersInByte()
    ensures Pow2(1) == 2 && Pow2(2) == 4 && Pow2(3) == 8 && Pow2(5) == 32 && Pow2(6) == 64 && Pow2(7) == 128
  {
    assert Pow2(3) == 8;
    assert Pow2(5) == 4 * Pow2(3);
    assert Pow2(7) == 4 * Pow2(5);
  }

  /** Unless the parts have the same size, only zero is shown as it is. */
  lemma ShownWrong(v: Byte, l1: nat)
    requires 0 < l1 < 8 && l1 != 4 && v != 0
    ensures Shown(v, Pow2(l1), Pow2(8 - l1)) != v
  {
    PowersInByte();
    hide Shown, Pow2;
    if
    case l1 == 1 => ShownWrong1(v);
    case l1 == 2 => ShownWrong2(v);
    case l1 == 3 => ShownWrong3(v);
    case l1 == 5 => ShownWrong5(v);
    case l1 == 6 => ShownWrong6(v);
    case l1 == 7 => ShownWrong7(v);
  }

  lemma PaddedByte(last: Byte, u: seq<bool>)
    requires |u| <= 8 && BitsOf(last, 8) == u + Zeros(8 - |u|)
    ensures last % Pow2(8 - |u|) == 0
  {
    BytePower();
    Padded(last, u, 8 - |u|);
    DivUnique(last, Pow2(8 - |u|), FromBits(u), 0);
  }

  lemma SplitParts(last: Byte, value: Byte, l1: nat)
    requires 0 < l1 < 8 && last % Pow2(8 - l1) == 0
    ensures FirstPart(value, l1) < 256
    ensures var s, p, q := Split(last, value, l1), Pow2(l1), Pow2(8 - l1);
      s[0] % q * p + s[1] / q == Shown(value, p, q)
  {
    Parts(value, l1);
    BytePower();
    BitwiseFits(last, FirstPart(value, l1), 8);
    OrMod(last, value / Pow2(8 - l1), 8 - l1);
  }

  lemma Pair<T>(s: seq<T>)
    requires |s| == 2
    ensures s == [s[0], s[1]]
  {
  }

  lemma ShownByte(last: Byte, u: seq<bool>, value: Byte)
    requires 0 < |u| < 8 && BitsOf(last, 8) == u + Zeros(8 - |u|)
    ensures FirstPart(value, |u|) < 256
    ensures FromBits(AllBits(Split(last, value, |u|))[|u|..|u| + 8]) == Shown(value, Pow2(|u|), Pow2(8 - |u|))
  {
    hide *;
    PaddedByte(last, u);
    SplitParts(last, value, |u|);
    var s := Split(last, value, |u|);
    Window(s[0], s[1], |u|);
    Pair(s);
  }

  /** What a byte written at an offset other than 0 and 4 looks like: never like the byte, unless that is zero. */
  lemma WrongByte(data: seq<Byte>, bits: seq<bool>, value: Byte)
    requires Holds(data, bits) && |bits| % 8 != 0 && |bits| % 8 != 4 && value != 0
    ensures |data| > 0 && FirstPart(value, |bits| % 8) < 256
    ensures !Shows(data[..|data| - 1] + Split(data[|data| - 1], value, |bits| % 8), |bits|, BitsOf(value, 8))
  {
    hide AllBits, BitsOf, FromBits, Shown, Pow2, FirstPart, Holds, Zeros;
    var front, u := LastByte(data, bits);
    ShownByte(data[|data| - 1], u, value);
    hide Split;
    var s := Split(data[|data| - 1], value, |u|);
    ShownWrong(value, |u|);
    AllBitsJoin(data[..|data| - 1], s);
    BytePower();
    FromBitsOf(value, 8);
    DivUnique(value, 256, 0, value);
    Behind(front, AllBits(s), u, 8);
  }

  lemma Behind<T>(front: seq<T>, all: seq<T>, u: seq<T>, n: nat)
    requires |u| + n <= |all|
    ensures (front + all)[|front + u|..|front + u| + n] == all[|u|..|u| + n]
  {
  }

  // ---------- the effect on all bits ----------

  /** What the source merges into the last byte does not reach its first bits. */
  lemma FrontKept(data: seq<Byte>, length: nat, value: Byte)
    requires |data| == (length + 7) / 8 && length % 8 != 0
    ensures FirstPart(value, length % 8) < 256 && Or(data[|data| - 1], FirstPart(value, length % 8)) < 256
    ensures var k, l1 := |data| - 1, length % 8;
      AllBits(data)[..8 * |data| - l1]
        <= AllBits(data[..k] + [Or(data[k], FirstPart(value, l1)), SecondPart(value, l1)])
  {
    hide AllBits, BitsOf, Or, FirstPart, SecondPart, Pow2;
    var k, l1 := |data| - 1, length % 8;
    var front, last := data[..k], data[k];
    InByte(last, value, l1);
    var x, y := Or(last, FirstPart(value, l1)), SecondPart(value, l1);
    TopKept(last, value, l1);
    assert data == front + [last];
    AllBitsAppend(front, last);
    AllBitsJoin(front, [x, y]);
    AllBitsOfTwo(x, y);
    SamePrefix(AllBits(front), BitsOf(last, 8), BitsOf(x, 8), BitsOf(y, 8), 8 - l1);
  }

  lemma SamePrefix<T>(a: seq<T>, b: seq<T>, c: seq<T>, d: seq<T>, n: nat)
    requires n <= |b| && n <= |c| && b[..n] == c[..n]
    ensures (a + b)[..|a| + n] <= a + (c + d)
  {
    assert (a + b)[..|a| + n] == a + b[..n];
    assert (a + (c + d))[..|a| + n] == a + c[..n];
  }

  lemma TopKept(last: Byte, value: Byte, l1: nat)
    requires 0 < l1 < 8
    ensures BitsOf(Or(last, FirstPart(value, l1)), 8)[..8 - l1] == BitsOf(last, 8)[..8 - l1]
  {
    hide BitsOf, FirstPart, Or;
    var f := FirstPart(value, l1);
    Parts(value, l1);
    forall i | 0 <= i < 8 - l1 ensures BitsOf(Or(last, f), 8)[i] == BitsOf(last, 8)[i] {
      BitsOfDigit(Or(last, f), 8, i);
      BitsOfDigit(last, 8, i);
      OrDigits(last, f, 7 - i);
      Pow2Grows(l1, 7 - i);
      DivUnique(f, Pow2(7 - i), 0, f);
    }
  }

  /** The second part ends with as many zeros as the byte is away from the boundary. */
  lemma SecondEnds(value: Byte, l1: nat, n: nat)
    requires 0 < l1 < 8 && n <= l1
    ensures BitsOf(SecondPart(value, l1), 8)[8 - n..] == Zeros(n)
  {
    hide BitsOf, SecondPart, Pow2;
    var y, low := SecondPart(value, l1), value % Pow2(8 - l1);
    Parts(value, l1);
    Pow2Add(n, l1 - n);
    var q, m := Pow2(n), Pow2(l1 - n);
    Rescaled(low, m, q);
    MultipleGrows(low, m);
    DivUnique(y, q, low * m, 0);
    NoBits(y, n);
    BitsOfJoin(y, 8 - n, n);
    Cut(BitsOf(y / q, 8 - n), BitsOf(y, n), []);
  }

  lemma Rescaled(a: int, m: int, q: int)
    ensures a * (q * m) == (a * m) * q
  {
  }

  /** What the bytes are once the source has written a byte behind the given number of bits. */
  ghost function WithByte(data: seq<Byte>, length: nat, value: Byte): (all: seq<Byte>)
    requires |data| == (length + 7) / 8
    ensures |all| == |data| + 1
  {
    var k, l1 := |data| - 1, length % 8;
    if l1 == 0 then data + [value]
    else
      InByte(data[k], value, l1);
      data[..k] + [Or(data[k], FirstPart(value, l1)), SecondPart(value, l1)]
  }

  /** The byte is in its place, or it is not shown there. */
  ghost predicate Placed(all: seq<Byte>, bits: seq<bool>, value: Byte) {
    if |bits| % 4 == 0 || value == 0 then Holds(all, bits + BitsOf(value, 8)) else !Shows(all, |bits|, BitsOf(value, 8))
  }

  lemma ByteBetween(data: seq<Byte>, bits: seq<bool>, value: Byte)
    requires Holds(data, bits) && |bits| % 8 != 0
    ensures |data| > 0 && FirstPart(value, |bits| % 8) < 256
    ensures Placed(data[..|data| - 1] + Split(data[|data| - 1], value, |bits| % 8), bits, value)
  {
    hide Holds, BitsOf, Shows, Split;
    if |bits| % 8 == 4 {
      HalfByte(data, bits, value);
    } else if value == 0 {
      ZeroByte(data, bits);
    } else {
      WrongByte(data, bits, value);
    }
  }

  lemma ByteInPlace(data: seq<Byte>, bits: seq<bool>, value: Byte)
    requires Holds(data, bits)
    ensures Placed(WithByte(data, |bits|, value), bits, value)
  {
    hide *;
    LengthHeld(data, bits);
    if |bits| % 8 == 0 {
      WholePlaced(data, bits, value);
    } else {
      ByteBetween(data, bits, value);
      PartsWritten(data, |bits|, value);
    }
  }

  lemma WholePlaced(data: seq<Byte>, bits: seq<bool>, value: Byte)
    requires Holds(data, bits) && |bits| % 8 == 0
    ensures Placed(WithByte(data, |bits|, value), bits, value)
  {
    hide AllBits, BitsOf, Zeros, Shows;
    NewByte(data, bits, value);
    WholeWritten(data, |bits|, value);
  }

  lemma WholeWritten(data: seq<Byte>, length: nat, value: Byte)
    requires |data| == (length + 7) / 8 && length % 8 == 0
    ensures WithByte(data, length, value) == data + [value]
  {
  }

  lemma PartsWritten(data: seq<Byte>, length: nat, value: Byte)
    requires |data| == (length + 7) / 8 && length % 8 != 0
    ensures FirstPart(value, length % 8) < 256
    ensures WithByte(data, length, value) == data[..|data| - 1] + Split(data[|data| - 1], value, length % 8)
  {
    InByte(data[|data| - 1], value, length % 8);
  }

  lemma PlaceOf(data: seq<Byte>, bits: seq<bool>, value: Byte)
    requires Holds(data, bits)
    ensures var all, b := WithByte(data, |bits|, value), BitsOf(value, 8);
      if |bits| % 4 == 0 || value == 0 then Holds(all, bits + b) else !Shows(all, |bits|, b)
  {
    ByteInPlace(data, bits, value);
    hide Holds, BitsOf, Shows, WithByte;
  }

  lemma InFront<T>(s: seq<T>, i: nat, n: nat)
    requires i + n <= |s|
    ensures s[..i + n][i..] == s[i..i + n]
  {
  }

  /** What becomes of all bits when the bits `b` of a byte are written behind the first `n` of them. */
  ghost predicate ByteStep(all: seq<bool>, now: seq<bool>, n: nat, b: seq<bool>) {
    n <= |all| && |b| == 8 && |now| == |all| + 8 && |all| % 8 == 0 && |all| < n + 8 &&
    all[..|all| - n % 8] <= now &&
    (4 < n % 8 ==> Blank(now[n + 8..])) &&
    (2 <= n % 8 ==> EndsBlank(now)) &&
    (Blank(all[n..]) ==> CleanStep(all[..n], now, b))
  }

  ghost predicate CleanStep(bits: seq<bool>, now: seq<bool>, b: seq<bool>) {
    if |bits| % 4 == 0 || Blank(b) then IsRight(now, bits + b) else !Reads(now, |bits|, b)
  }

  ghost predicate Reads(all: seq<bool>, n: nat, b: seq<bool>) {
    n + |b| <= |all| && all[n..n + |b|] == b
  }

  ghost predicate EndsBlank(all: seq<bool>) {
    |all| >= 2 && Blank(all[|all| - 2..])
  }

  lemma ByteWritten(data: seq<Byte>, length: nat, value: Byte)
    requires |data| == (length + 7) / 8
    ensures ByteStep(AllBits(data), AllBits(WithByte(data, length, value)), length, BitsOf(value, 8))
  {
    hide AllBits, BitsOf, WithByte, Blank, Zeros, CleanStep;
    var all, now, b := AllBits(data), AllBits(WithByte(data, length, value)), BitsOf(value, 8);
    BehindStep(data, length, value);
    if Blank(all[length..]) {
      BlankHolds(data, length);
      CleanByteStep(data, all[..length], value);
    }
  }

  lemma BlankHolds(data: seq<Byte>, length: nat)
    requires |data| == (length + 7) / 8 && Blank(AllBits(data)[length..])
    ensures Holds(data, AllBits(data)[..length])
  {
    hide AllBits;
    InTwo(AllBits(data), length);
  }

  lemma InTwo<T>(s: seq<T>, n: nat)
    requires n <= |s|
    ensures s == s[..n] + s[n..]
  {
  }

  lemma CleanByteStep(data: seq<Byte>, bits: seq<bool>, value: Byte)
    requires Holds(data, bits)
    ensures |data| == (|bits| + 7) / 8
    ensures CleanStep(bits, AllBits(WithByte(data, |bits|, value)), BitsOf(value, 8))
  {
    LengthHeld(data, bits);
    PlaceOf(data, bits, value);
    ZeroBits(value);
    hide AllBits, BitsOf, WithByte, Blank, Zeros;
  }

  lemma ZeroBits(value: Byte)
    ensures Blank(BitsOf(value, 8)) <==> value == 0
  {
    LowByte(value);
    DivUnique(value, 256, 0, value);
  }

  lemma LowByte(v: nat)
    ensures BitsOf(v % 256, 8) == BitsOf(v, 8) && (Blank(BitsOf(v, 8)) <==> v % 256 == 0)
  {
    BytePower();
    BitsOfMod(v, 8);
    NoBits(v, 8);
  }

  /** What is true whatever the last byte is like. */
  lemma BehindStep(data: seq<Byte>, length: nat, value: Byte)
    requires |data| == (length + 7) / 8
    ensures var all, now, o := AllBits(data), AllBits(WithByte(data, length, value)), length % 8;
      all[..|all| - o] <= now && (4 < o ==> Blank(now[length + 8..])) && (2 <= o ==> EndsBlank(now))
  {
    hide AllBits, BitsOf, Or, FirstPart, SecondPart, Blank;
    var o := length % 8;
    if o == 0 {
      AllBitsAppend(data, value);
      assert AllBits(data)[..8 * |data|] == AllBits(data);
    } else {
      var k := |data| - 1;
      FrontKept(data, length, value);
      InByte(data[k], value, o);
      var front := data[..k] + [Or(data[k], FirstPart(value, o))];
      var y := SecondPart(value, o);
      assert WithByte(data, length, value) == front + [y];
      hide WithByte;
      AllBitsAppend(front, y);
      if 4 < o {
        LastBits(AllBits(front), value, o, 8 - o);
      }
      if 2 <= o {
        LastBits(AllBits(front), value, o, 2);
      }
    }
  }

  lemma LastBits(a: seq<bool>, value: Byte, l1: nat, n: nat)
    requires 0 < l1 < 8 && n <= l1
    ensures var now := a + BitsOf(SecondPart(value, l1), 8); Blank(now[|now| - n..])
  {
    hide BitsOf, SecondPart;
    SecondEnds(value, l1, n);
    var b := BitsOf(SecondPart(value, l1), 8);
    assert (a + b)[|a| + 8 - n..] == b[8 - n..];
  }

  /** What becomes of all bits when one more is written. */
  ghost function BitStep(all: seq<bool>, n: nat, value: bool): (now: seq<bool>)
    requires |all| == Whole(n)
    ensures |now| == Whole(n + 1)
  {
    if n % 8 == 0 then all + ([value] + Zeros(7)) else all[n := all[n] || value]
  }

  /** As many bits as the bytes that hold `n` bits have. */
  function Whole(n: nat): nat { (n + 7) / 8 * 8 }

  function WithBit(data: seq<Byte>, length: nat, value: bool): (all: seq<Byte>)
    requires |data| == (length + 7) / 8
    ensures |all| == (length + 8) / 8
  {
    var m := 7 - length % 8;
    BitInByte(if length % 8 == 0 then 0 else data[|data| - 1], value, m);
    if length % 8 == 0 then data + [if value then 128 else 0]
    else data[|data| - 1 := if value then Or(data[|data| - 1], Pow2(m)) else data[|data| - 1]]
  }

  lemma BitInByte(last: Byte, value: bool, m: nat)
    requires m < 8
    ensures Or(last, Pow2(m)) < 256
    ensures BitsOf(Or(last, Pow2(m)), 8) == BitsOf(last, 8)[7 - m := true]
  {
    hide BitsOf, Or, Pow2, Digit;
    BytePower();
    Pow2Below(m, 8);
    BitwiseFits(last, Pow2(m), 8);
    var b := BitsOf(last, 8)[7 - m := true];
    forall i | 0 <= i < 8 ensures BitsOf(Or(last, Pow2(m)), 8)[i] == b[i] {
      BitsOfDigit(Or(last, Pow2(m)), 8, i);
      BitsOfDigit(last, 8, i);
      OrDigits(last, Pow2(m), 7 - i);
      DigitOfPow2(m, 7 - i);
    }
  }

  lemma {:induction false} DigitOfPow2(m: nat, n: nat)
    ensures Digit(Pow2(m), n) <==> m == n
  {
    if m == 0 {
      if n > 0 {
        DigitOfHalf(1, n - 1);
        DigitOfZero(n - 1);
      }
    } else if n > 0 {
      DigitOfHalf(Pow2(m), n - 1);
      DigitOfPow2(m - 1, n - 1);
    }
  }

  lemma BitWritten(data: seq<Byte>, length: nat, value: bool)
    requires |data| == (length + 7) / 8
    ensures AllBits(WithBit(data, length, value)) == BitStep(AllBits(data), length, value)
  {
    hide AllBits, BitsOf, Or, Pow2, Zeros;
    if length % 8 == 0 {
      AllBitsAppend(data, if value then 128 else 0);
      TopBit(value);
    } else {
      OldByteBit(data, length, value);
    }
  }

  lemma OldByteBit(data: seq<Byte>, length: nat, value: bool)
    requires |data| == (length + 7) / 8 && length % 8 != 0
    ensures AllBits(WithBit(data, length, value)) == BitStep(AllBits(data), length, value)
  {
    hide AllBits, BitsOf, Or, Pow2, Zeros;
    var k, m := |data| - 1, 7 - length % 8;
    var last := data[k];
    BitInByte(last, value, m);
    var x := if value then Or(last, Pow2(m)) else last;
    assert data == data[..k] + [last] && WithBit(data, length, value) == data[..k] + [x];
    hide WithBit;
    AllBitsAppend(data[..k], last);
    AllBitsAppend(data[..k], x);
    Changed(AllBits(data[..k]), BitsOf(last, 8), 7 - m, value);
  }

  lemma Changed(a: seq<bool>, b: seq<bool>, i: nat, value: bool)
    requires i < |b|
    ensures (a + b)[|a| + i := (a + b)[|a| + i] || value] == a + if value then b[i := true] else b
  {
  }

  lemma TopBit(value: bool)
    ensures BitsOf(if value then 128 else 0, 8) == [value] + Zeros(7)
  {
    BitsOfZero(8);
    assert Zeros(8) == [false] + Zeros(7);
    if value {
      assert Pow2(7) == 128;
      BitInByte(0, true, 7);
      assert Or(0, 128) == 128;
    }
  }

  // ---------- streams that have gone wrong ----------

  /** All bits are the intended ones, and zeros. */
  ghost predicate IsRight(all: seq<bool>, x: seq<bool>) {
    |all| == Whole(|x|) && all == x + Zeros(|all| - |x|)
  }

  ghost predicate Differ(all: seq<bool>, x: seq<bool>, n: nat) {
    n <= |x| <= |all| && all[..n] != x[..n]
  }

  /** The first `m` bits of the last byte, and everything before it. */
  function UpTo(n: nat, m: nat): nat {
    if n % 8 < m then n else n - n % 8 + m
  }

  /**
   * Something is wrong where no later write can repair it: not behind the first bit of the last byte; or, up to the
   * fifth bit and with two zeros at its end, not behind the third; or anywhere, with only zeros behind the end.
   */
  ghost predicate Spoilt(all: seq<bool>, x: seq<bool>) {
    |all| == Whole(|x|) &&
    (Differ(all, x, UpTo(|x|, 1)) ||
     (|x| % 8 <= 5 && EndsBlank(all) && Differ(all, x, UpTo(|x|, 3))) ||
     (Blank(all[|x|..]) && Differ(all, x, |x|)))
  }

  lemma SpoiltDiffers(all: seq<bool>, x: seq<bool>)
    requires Spoilt(all, x)
    ensures all[..|x|] != x
  {
    SamePrefixes(all, x, UpTo(|x|, 1));
    SamePrefixes(all, x, UpTo(|x|, 3));
    SamePrefixes(all, x, |x|);
  }

  lemma SamePrefixes(all: seq<bool>, x: seq<bool>, n: nat)
    requires n <= |x| <= |all|
    ensures all[..|x|] == x ==> all[..n] == x[..n]
  {
    assert all[..|x|][..n] == all[..n];
  }

  lemma DifferKept(all: seq<bool>, x: seq<bool>, n: nat, now: seq<bool>, y: seq<bool>, m: nat)
    requires Differ(all, x, n) && n <= m <= |y| <= |now| && all[..n] <= now && x <= y
    ensures Differ(now, y, m)
  {
    assert now[..m][..n] == now[..n] == all[..n];
    assert y[..m][..n] == y[..n] == x[..n];
  }

  /** Bits that follow do not help, whatever they should be. */
  lemma SpoiltBit(all: seq<bool>, x: seq<bool>, value: bool, c: bool)
    requires Spoilt(all, x)
    ensures Spoilt(BitStep(all, |x|, value), x + [c])
  {
    hide *;
    SpoiltCases(all, x);
    if Differ(all, x, UpTo(|x|, 1)) {
      FirstBitWrong(all, x, value, c);
    } else if 0 < |x| % 8 <= 5 && EndsBlank(all) && Differ(all, x, UpTo(|x|, 3)) {
      ThirdBitWrong(all, x, value, c);
    } else {
      CleanBitWrong(all, x, value, c);
    }
  }

  lemma SpoiltCases(all: seq<bool>, x: seq<bool>)
    requires Spoilt(all, x)
    ensures |all| == Whole(|x|) >= |x|
    ensures Differ(all, x, UpTo(|x|, 1)) || (0 < |x| % 8 <= 5 && EndsBlank(all) && Differ(all, x, UpTo(|x|, 3))) ||
            (Blank(all[|x|..]) && Differ(all, x, |x|))
  {
    hide Differ, EndsBlank, Blank;
  }

  lemma FirstBitWrong(all: seq<bool>, x: seq<bool>, value: bool, c: bool)
    requires |all| == Whole(|x|) && Differ(all, x, UpTo(|x|, 1))
    ensures Spoilt(BitStep(all, |x|, value), x + [c])
  {
    hide *;
    var now := BitStep(all, |x|, value);
    StepSize(all, x, value, c);
    BitsKept(all, |x|, value);
    DifferUpTo(all, x, UpTo(|x|, 1), now, c, 1);
    SpoiltInFront(now, x + [c]);
  }

  lemma StepSize(all: seq<bool>, x: seq<bool>, value: bool, c: bool)
    requires |all| == Whole(|x|)
    ensures |x| < |x + [c]| == |x| + 1 <= |BitStep(all, |x|, value)| == Whole(|x + [c]|)
    ensures UpTo(|x|, 1) <= UpTo(|x| + 1, 1)
  {
    hide BitStep;
  }

  lemma ThirdBitWrong(all: seq<bool>, x: seq<bool>, value: bool, c: bool)
    requires |all| == Whole(|x|) && 0 < |x| % 8 <= 5 && EndsBlank(all) && Differ(all, x, UpTo(|x|, 3))
    ensures Spoilt(BitStep(all, |x|, value), x + [c])
  {
    hide Zeros, Blank, Differ, BitStep, EndsBlank;
    var now, n := BitStep(all, |x|, value), |x|;
    BitsKept(all, n, value);
    EndKept(all, n, value);
    if n % 8 == 5 {
      DifferUpTo(all, x, UpTo(n, 3), now, c, 8);
    } else {
      DifferUpTo(all, x, UpTo(n, 3), now, c, 3);
    }
  }

  lemma CleanBitWrong(all: seq<bool>, x: seq<bool>, value: bool, c: bool)
    requires |all| == Whole(|x|) && Blank(all[|x|..]) && Differ(all, x, |x|)
    ensures Spoilt(BitStep(all, |x|, value), x + [c])
  {
    hide Zeros, Blank, Differ, EndsBlank;
    BitsKept(all, |x|, value);
    BlankBehind(all, |x|, value);
    hide BitStep;
    DifferUpTo(all, x, |x|, BitStep(all, |x|, value), c, 8);
  }

  lemma EndKept(all: seq<bool>, n: nat, value: bool)
    requires |all| == Whole(n) && 0 < n % 8 <= 5 && EndsBlank(all)
    ensures var now := BitStep(all, n, value); EndsBlank(now) && (n % 8 == 5 ==> Blank(now[n + 1..]))
  {
    var now := BitStep(all, n, value);
    assert now[|now| - 2..] == all[|all| - 2..];
  }

  lemma BitsKept(all: seq<bool>, n: nat, value: bool)
    requires |all| == Whole(n)
    ensures all[..n] <= BitStep(all, n, value)
  {
  }

  lemma DifferUpTo(all: seq<bool>, x: seq<bool>, n: nat, now: seq<bool>, c: bool, m: nat)
    requires Differ(all, x, n) && n <= UpTo(|x| + 1, m) && |x| < |now| && all[..|x|] <= now && 0 < m <= 8
    ensures Differ(now, x + [c], UpTo(|x| + 1, m))
  {
    assert n <= |x| && all[..|x|][..n] == all[..n];
    DifferKept(all, x, n, now, x + [c], UpTo(|x| + 1, m));
  }

  lemma BlankBehind(all: seq<bool>, n: nat, value: bool)
    requires |all| == Whole(n) && Blank(all[n..])
    ensures var now := BitStep(all, n, value); Blank(now[n + 1..]) && now == all[..n] + [value] + now[n + 1..]
  {
    var now := BitStep(all, n, value);
    if n % 8 == 0 {
      assert all[..n] == all;
      assert now == all + [value] + Zeros(7);
    } else {
      assert !all[n..][0];
      assert now[n + 1..] == all[n..][1..];
      assert Zeros(|all| - n)[1..] == Zeros(|all| - n - 1);
    }
  }

  /** A bit of a stream that is right so far. */
  lemma RightBit(all: seq<bool>, x: seq<bool>, value: bool, c: bool)
    requires IsRight(all, x)
    ensures var now, y := BitStep(all, |x|, value), x + [c];
      if value == c then IsRight(now, y) else Spoilt(now, y)
  {
    var now, y, n := BitStep(all, |x|, value), x + [c], |x|;
    hide Zeros;
    Cut(x, Zeros(|all| - n), []);
    BlankBehind(all, n, value);
    hide BitStep, Blank;
    Cut(x + [value], now[n + 1..], []);
    if value != c {
      assert now[..n + 1][n] != y[n];
    }
  }

  /** Nor does a byte that follows. */
  lemma SpoiltByte(all: seq<bool>, x: seq<bool>, now: seq<bool>, b: seq<bool>)
    requires Spoilt(all, x) && ByteStep(all, now, |x|, b)
    ensures Spoilt(now, x + b)
  {
    hide *;
    SpoiltCases(all, x);
    StepSizes(all, now, |x|, b);
    var n := |x|;
    if Differ(all, x, UpTo(n, 1)) {
      DifferBehind(all, x, UpTo(n, 1), now, b);
    } else if n % 8 <= 5 && Differ(all, x, UpTo(n, 3)) {
      DifferBehind(all, x, UpTo(n, 3), now, b);
    } else if n % 8 <= 4 {
      DifferBehind(all, x, n, now, b);
    } else {
      CleanAndWrong(all, x, now, b);
    }
  }

  lemma StepSizes(all: seq<bool>, now: seq<bool>, n: nat, b: seq<bool>)
    requires ByteStep(all, now, n, b)
    ensures UpTo(n, 1) <= |all| - n % 8 && (n % 8 <= 5 ==> UpTo(n, 3) <= |all| - n % 8) &&
      (n % 8 <= 4 ==> n <= |all| - n % 8)
  {
    hide CleanStep, Blank, EndsBlank;
  }

  lemma DifferBehind(all: seq<bool>, x: seq<bool>, n: nat, now: seq<bool>, b: seq<bool>)
    requires Differ(all, x, n) && ByteStep(all, now, |x|, b) && n <= |all| - |x| % 8
    ensures Spoilt(now, x + b)
  {
    hide *;
    DifferSize(all, x, n);
    StepKeeps(all, x, n, now, b);
    DifferKept(all, x, n, now, x + b, UpTo(|x + b|, 1));
    SpoiltInFront(now, x + b);
  }

  lemma DifferSize(all: seq<bool>, x: seq<bool>, n: nat)
    requires Differ(all, x, n)
    ensures n <= |x|
  {
  }

  lemma StepKeeps(all: seq<bool>, x: seq<bool>, n: nat, now: seq<bool>, b: seq<bool>)
    requires ByteStep(all, now, |x|, b) && n <= |x| && n <= |all| - |x| % 8
    ensures n <= UpTo(|x + b|, 1) <= |x + b| <= |now| == Whole(|x + b|) && all[..n] <= now && x <= x + b
  {
    hide Blank, CleanStep, EndsBlank;
    assert all[..|all| - |x| % 8][..n] == all[..n];
  }

  lemma SpoiltInFront(all: seq<bool>, x: seq<bool>)
    requires |all| == Whole(|x|) && Differ(all, x, UpTo(|x|, 1))
    ensures Spoilt(all, x)
  {
    hide Differ, Blank, EndsBlank;
  }

  lemma CleanAndWrong(all: seq<bool>, x: seq<bool>, now: seq<bool>, b: seq<bool>)
    requires ByteStep(all, now, |x|, b) && 4 < |x| % 8 && Blank(all[|x|..]) && Differ(all, x, |x|)
    ensures Spoilt(now, x + b)
  {
    StillWrong(all, x, now, b);
    SizeOf(x, b);
    hide Blank, Zeros, EndsBlank, Differ, CleanStep, Spoilt;
    WrongSomewhere(now, x + b);
  }

  lemma SizeOf(x: seq<bool>, b: seq<bool>)
    ensures |x + b| == |x| + |b|
  {
  }

  /** Wherever it is wrong, if the last byte has only few bits or nothing is behind them. */
  lemma WrongSomewhere(now: seq<bool>, y: seq<bool>)
    requires |now| == Whole(|y|) && Differ(now, y, |y|)
    requires |y| % 8 <= 1 || (|y| % 8 <= 3 && EndsBlank(now)) || Blank(now[|y|..])
    ensures Spoilt(now, y)
  {
    hide Blank, EndsBlank, Differ;
  }

  lemma StillWrong(all: seq<bool>, x: seq<bool>, now: seq<bool>, b: seq<bool>)
    requires ByteStep(all, now, |x|, b) && 4 < |x| % 8 && Blank(all[|x|..]) && Differ(all, x, |x|)
    ensures Differ(now, x + b, |x| + 8)
  {
    hide Blank, Zeros, EndsBlank;
    var n := |x|;
    InFront(now, n, 8);
    Cut(x, b, []);
    Cut(all[..n], b, []);
    Cut(all[..n] + b, Zeros(|now| - n - 8), []);
    assert (x + b)[..n + 8] == x + b;
  }

  /** A byte of a stream that is right so far: in place at multiples of four bits, or if it is zero. */
  lemma RightByte(all: seq<bool>, x: seq<bool>, now: seq<bool>, b: seq<bool>)
    requires IsRight(all, x) && ByteStep(all, now, |x|, b)
    ensures if |x| % 4 == 0 || Blank(b) then IsRight(now, x + b) else Spoilt(now, x + b)
  {
    RightInFront(all, x);
    hide Zeros, Blank, EndsBlank, IsRight;
    if !(|x| % 4 == 0 || Blank(b)) {
      hide CleanStep;
      WrongStep(x, now, b);
    }
  }

  lemma RightInFront(all: seq<bool>, x: seq<bool>)
    requires IsRight(all, x)
    ensures |all| == Whole(|x|) && all[..|x|] == x && Blank(all[|x|..])
  {
    Cut(x, Zeros(|all| - |x|), []);
  }

  lemma WrongStep(x: seq<bool>, now: seq<bool>, b: seq<bool>)
    requires CleanStep(x, now, b) && |x| % 4 != 0 && !Blank(b) && |b| == 8 && |now| == Whole(|x| + 8)
    requires (4 < |x| % 8 ==> Blank(now[|x| + 8..])) && (2 <= |x| % 8 ==> EndsBlank(now))
    ensures Spoilt(now, x + b)
  {
    hide *;
    WrongBits(x, now, b);
    SizeOf(x, b);
    WrongSomewhere(now, x + b);
  }

  lemma WrongBits(x: seq<bool>, now: seq<bool>, b: seq<bool>)
    requires CleanStep(x, now, b) && |x| % 4 != 0 && !Blank(b) && |b| == 8 && |now| == Whole(|x| + 8)
    ensures Differ(now, x + b, |x| + 8)
  {
    hide Blank, EndsBlank, IsRight;
    var n := |x|;
    InFront(now, n, 8);
    Cut(x, b, []);
    assert (x + b)[..n + 8] == x + b;
  }

  /** Whole bytes behind whole bytes. */
  lemma SpoiltBytes(all: seq<bool>, x: seq<bool>, b: seq<bool>)
    requires |x| % 8 == 0 && |b| % 8 == 0
    ensures Spoilt(all, x) ==> Spoilt(all + b, x + b)
    ensures IsRight(all, x) ==> IsRight(all + b, x + b)
  {
    if Spoilt(all, x) {
      WrongBytes(all, x, b);
    }
    if IsRight(all, x) {
      assert Zeros(0) == [] && all == x;
    }
  }

  lemma WrongBytes(all: seq<bool>, x: seq<bool>, b: seq<bool>)
    requires |x| % 8 == 0 && |b| % 8 == 0 && Spoilt(all, x)
    ensures Spoilt(all + b, x + b)
  {
    hide *;
    SpoiltCases(all, x);
    SpoiltDiffers(all, x);
    JoinedWhole(all, x, b);
    DifferKept(all, x, |x|, all + b, x + b, UpTo(|x + b|, 1));
    SpoiltInFront(all + b, x + b);
  }

  lemma JoinedWhole(all: seq<bool>, x: seq<bool>, b: seq<bool>)
    requires |x| % 8 == 0 && |b| % 8 == 0 && |all| == Whole(|x|) && all[..|x|] != x
    ensures Differ(all, x, |x|) && |x| <= UpTo(|x + b|, 1) == |x + b| <= |all + b| == Whole(|x + b|)
    ensures all[..|x|] <= all + b && x <= x + b
  {
    assert all[..|x|] == all && x[..|x|] == x;
  }
}
