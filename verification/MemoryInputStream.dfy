/** An in-memory bit stream that is read from a position, most significant bit of a byte first. */
module MemoryInputStreams {
  import opened BitMasks
  import opened BitStrings
  import opened MachineWords
  import opened Sequences

  lemma BitAt(data: seq<Byte>, i: nat)
    requires i < 8 * |data|
    ensures AllBits(data)[i] == (And(data[i / 8], Pow2(7 - i % 8)) != 0)
  {
    hide AllBits, BitsOf, And;
    AllBitsAt(data, i / 8);
    assert AllBits(data)[i] == AllBits(data)[8 * (i / 8)..8 * (i / 8) + 8][i % 8];
    BitsOfDigit(data[i / 8], 8, i % 8);
    AndBit(data[i / 8], 7 - i % 8);
  }

  lemma ByteAt(data: seq<Byte>, k: nat)
    requires k < |data|
    ensures FromBits(AllBits(data)[8 * k..8 * k + 8]) == data[k]
  {
    hide AllBits, BitsOf, FromBits;
    AllBitsAt(data, k);
    FromBitsOf(data[k], 8);
    BytePower();
    DivUnique(data[k], 256, 0, data[k]);
  }

  /** A byte across a byte boundary: the source puts the low part of one byte before the high part of the next. */
  function Across(a: Byte, b: Byte, l1: nat): nat
    requires 0 < l1 < 8
  {
    Pow2Quotient(b, 8 - l1);
    Or(a * Pow2(l1) % 256, b / Pow2(8 - l1))
  }

  lemma AcrossParts(a: Byte, b: Byte, l1: nat)
    requires 0 < l1 < 8
    ensures var p, q := Pow2(l1), Pow2(8 - l1);
      Across(a, b, l1) == a % q * p + b / q && 0 <= b / q < p
  {
    var p, q := Pow2(l1), Pow2(8 - l1);
    BytePower();
    Pow2Add(l1, 8 - l1);
    DivBelow(b, q, p);
    TopCut(a, p, q);
    hide Pow2, Or;
    OrIsSum(b / q, a % q, l1);
  }

  lemma TopCut(a: int, p: int, q: int)
    requires p > 0 && q > 0 && p * q == 256
    ensures a * p % 256 == a % q * p >= 0
  {
    Distribute(a / q, q, a % q, p);
    Scaled(a % q, q, p);
    DivUnique(a * p, 256, a / q, a % q * p);
  }

  lemma TwoBytesAt(data: seq<Byte>, k: nat, m: nat)
    requires k + 1 < |data| && m < 8
    ensures AllBits(data)[8 * k + m..8 * k + m + 8] == AllBits([data[k], data[k + 1]])[m..m + 8]
  {
    hide *;
    var a, b, c := data[..k], [data[k], data[k + 1]], data[k + 2..];
    TwoInside(data, k);
    AllBitsJoin(a + b, c);
    AllBitsJoin(a, b);
    Inside(AllBits(a), AllBits(b), AllBits(c), AllBits(data), 8 * k + m, m);
  }

  lemma TwoInside<T>(s: seq<T>, k: nat)
    requires k + 1 < |s|
    ensures s == s[..k] + [s[k], s[k + 1]] + s[k + 2..]
  {
  }

  lemma Inside<T>(a: seq<T>, b: seq<T>, c: seq<T>, s: seq<T>, p: nat, m: nat)
    requires m + 8 <= |b| && s == a + b + c && p == |a| + m
    ensures s[p..p + 8] == b[m..m + 8]
  {
  }

  lemma AcrossAt(data: seq<Byte>, k: nat, m: nat)
    requires k + 1 < |data| && 0 < m < 8
    ensures FromBits(AllBits(data)[8 * k + m..8 * k + m + 8]) == Across(data[k], data[k + 1], m)
  {
    hide *;
    TwoBytesAt(data, k, m);
    AcrossParts(data[k], data[k + 1], m);
    Window(data[k], data[k + 1], m);
  }

  // ---------- the stream ----------

  class MemoryInputStream {
    const data: seq<Byte>
    const length: nat
    var position: nat
    var isReadBeyondEnd: bool

    constructor (data: seq<Byte>, length: nat)
      requires length <= 8 * |data|
      ensures Valid() && Bits() == AllBits(data)[..length] && position == 0 && !isReadBeyondEnd && this.length == length
    {
      this.data, this.length, position, isReadBeyondEnd := data, length, 0, false;
    }

    ghost predicate Valid()
      reads this
    {
      position <= length <= 8 * |data|
    }

    ghost function Bits(): (b: seq<bool>)
      requires length <= 8 * |data|
      ensures |b| == length
    {
      AllBits(data)[..length]
    }

    /** Are there `n` more bits? */
    ghost predicate Left(n: nat)
      reads this
    {
      Valid() && position + n <= length
    }

    /** The next `n` bits. */
    ghost function Next(n: nat): (b: seq<bool>)
      requires Left(n)
      reads this
      ensures |b| == n
    {
      Bits()[position..position + n]
    }

    /** Position and flag after reading `n` bits from position `p`. */
    ghost predicate Advanced(p: nat, beyond: bool, n: nat)
      reads this
    {
      Valid() && position == p + n && isReadBeyondEnd == beyond
    }

    method Seek(p: nat)
      requires Valid() && p <= length
      modifies this
      ensures Valid() && position == p && isReadBeyondEnd == old(isReadBeyondEnd)
    {
      position := p;
    }

    /** Reads a bit; behind the end there is only false, and the flag is raised. */
    method ReadBit() returns (value: bool)
      requires Valid()
      modifies this
      ensures old(Left(1)) ==> value == old(Bits()[position]) && Advanced(old(position), old(isReadBeyondEnd), 1)
      ensures !old(Left(1)) ==> !value && Advanced(old(position), true, 0)
    {
      if position == length {
        isReadBeyondEnd := true;
        return false;
      }
      BitAt(data, position);
      var byteIndex, bitIndex := position / 8, position % 8;
      value := And(data[byteIndex], Pow2(7 - bitIndex)) != 0;
      position := position + 1;
    }

    /** Reads a byte; if there are fewer than eight bits they are skipped, and the flag is raised. */
    method ReadByte() returns (value: Byte)
      requires Valid()
      modifies this
      ensures old(Left(8)) ==> BitsOf(value, 8) == old(Next(8)) && Advanced(old(position), old(isReadBeyondEnd), 8)
      ensures !old(Left(8)) ==> value == 0 && Valid() && position == length && isReadBeyondEnd
    {
      hide AllBits, BitsOf, FromBits;
      if position + 8 > length {
        isReadBeyondEnd := true;
        position := length;
        return 0;
      }
      ghost var b := Next(8);
      assert b == AllBits(data)[position..position + 8];
      BitsOfFrom(b);
      BytePower();
      var l1, k := position % 8, position / 8;
      if l1 == 0 {
        ByteAt(data, k);
        value := data[k];
      } else {
        AcrossAt(data, k, l1);
        value := Across(data[k], data[k + 1], l1);
      }
      position := position + 8;
    }

    /** Reads bits until the flag is raised; once it is, none are read. */
    method ReadBits(n: nat) returns (bits: seq<bool>)
      requires Valid()
      modifies this
      ensures !old(isReadBeyondEnd) && old(Left(n)) ==> bits == old(Next(n)) && Advanced(old(position), false, n)
      ensures !old(isReadBeyondEnd) && !old(Left(n)) ==>
        bits == old(Next(length - position)) + [false] && Advanced(length, true, 0)
      ensures old(isReadBeyondEnd) ==> bits == [] && Advanced(old(position), true, 0)
    {
      hide AllBits, Bits;
      bits := [];
      var i := 0;
      ghost var p := position;
      while i < n && !isReadBeyondEnd
        invariant Valid() && i <= n
        invariant !old(isReadBeyondEnd) && !isReadBeyondEnd ==>
          p + i <= length && position == p + i && bits == Bits()[p..p + i]
        invariant !old(isReadBeyondEnd) && isReadBeyondEnd ==>
          !old(Left(n)) && position == length && bits == Bits()[p..length] + [false]
        invariant old(isReadBeyondEnd) ==> bits == [] && position == p && isReadBeyondEnd
      {
        if position < length {
          assert Bits()[p..p + i + 1] == Bits()[p..p + i] + Bits()[p + i..p + i + 1];
        }
        var value := ReadBit();
        bits := bits + [value];
        i := i + 1;
      }
    }

    method ReadTwoBits() returns (x: bool, y: bool)
      requires Valid()
      modifies this
      ensures old(Left(2)) ==> [x, y] == old(Next(2)) && Advanced(old(position), old(isReadBeyondEnd), 2)
      ensures !old(Left(2)) ==> isReadBeyondEnd && Valid() && position == length
    {
      hide AllBits, Bits;
      ghost var p, all, fits := position, Bits(), Left(2);
      x := ReadBit();
      y := ReadBit();
      if fits {
        assert all[p..p + 2] == all[p..p + 1] + all[p + 1..p + 2];
      }
    }

    method ReadUint2() returns (value: Byte)
      requires Valid()
      modifies this
      ensures old(Left(2)) ==> value == FromBits(old(Next(2))) && Advanced(old(position), old(isReadBeyondEnd), 2)
      ensures !old(Left(2)) ==> isReadBeyondEnd && Valid() && position == length
    {
      hide AllBits, Bits;
      var x, y := ReadTwoBits();
      TwoDigits(x, y);
      value := if x then 2 else 0;
      if y {
        value := value + 1;
      }
    }

    /** Reads a number of `n` bytes, the highest of them first. */
    method ReadUintBe(n: nat) returns (value: nat)
      requires Valid()
      modifies this
      ensures old(Left(8 * n)) ==>
        value == FromBits(old(Next(8 * n))) && Advanced(old(position), old(isReadBeyondEnd), 8 * n)
      ensures !old(Left(8 * n)) ==> isReadBeyondEnd && Valid() && position == length
    {
      hide AllBits, Bits, BitsOf, FromBits, Or, Pow2;
      value := 0;
      ghost var p, all, beyond := position, Bits(), isReadBeyondEnd;
      ghost var fits := Left(8 * n);
      var k: nat := n;
      NothingRead(8 * n);
      assert all[p..p] == [];
      while k > 0
        invariant k <= n && Valid() && Bits() == all
        invariant fits ==> Advanced(p, beyond, 8 * (n - k)) && value == FromBits(all[p..position]) * Pow2(8 * k)
        invariant !fits ==> (position == length && isReadBeyondEnd) || position == p + 8 * (n - k)
      {
        k := k - 1;
        ghost var q := position;
        var byte := ReadByte();
        if fits {
          BigDigit(all, p, q, byte, value, 8 * k);
        }
        Pow2Product(byte, 8 * k);
        value := Or(value, byte * Pow2(8 * k));
      }
      Pow2OfZero(if fits then FromBits(all[p..position]) else 0);
    }

    /** Reads a number of `n` bytes, the lowest of them first. */
    method ReadUintLe(n: nat) returns (value: nat)
      requires Valid()
      modifies this
      ensures old(Left(8 * n)) ==>
        value == FromLittle(old(Next(8 * n))) && Advanced(old(position), old(isReadBeyondEnd), 8 * n)
      ensures !old(Left(8 * n)) ==> isReadBeyondEnd && Valid() && position == length
    {
      hide AllBits, Bits, BitsOf, FromBits, FromLittle, Or, Pow2;
      value := 0;
      ghost var p, all, beyond := position, Bits(), isReadBeyondEnd;
      ghost var fits := Left(8 * n);
      LittleNothing();
      assert all[p..p] == [];
      for k := 0 to n
        invariant Valid() && Bits() == all
        invariant fits ==> Advanced(p, beyond, 8 * k) && value == FromLittle(all[p..position]) && value < Pow2(8 * k)
        invariant !fits ==> (position == length && isReadBeyondEnd) || position == p + 8 * k
      {
        ghost var q := position;
        var byte := ReadByte();
        if fits {
          Spliced(all, p, q, q + 8);
          LittleDigit(all[p..q], all[q..q + 8], byte, value);
        }
        Pow2Product(byte, 8 * k);
        value := Or(value, byte * Pow2(8 * k));
      }
    }

    /**
     * Reads a number of `n` bits; the source throws for 0 and for more than 64 of them. Of 32 bits only zeros are
     * read as they are, since the widened mask sets higher bits as well.
     */
    method ReadNBitsToUint64Be(n: nat) returns (ok: bool, value: nat)
      requires Valid() && (n <= 32 || n > 64)
      modifies this
      ensures ok == (0 < n <= 64) && value < W
      ensures ok && old(Left(n)) ==> Advanced(old(position), old(isReadBeyondEnd), n)
      ensures ok && old(Left(n)) && (n <= 31 || Blank(old(Next(n)))) ==> value == FromBits(old(Next(n)))
      ensures ok && old(Left(n)) && n == 32 && !Blank(old(Next(n))) ==> value >= 0x1_0000_0000 > FromBits(old(Next(n)))
      ensures ok && !old(Left(n)) ==> isReadBeyondEnd && Valid() && position == length
      ensures !ok ==> Advanced(old(position), old(isReadBeyondEnd), 0)
    {
      value := 0;
      if n == 0 || n > 64 {
        return false, 0;
      }
      hide AllBits, Bits, BitsOf, FromBits, Or, Pow2, MaskAt, TopMask, Blank, SoFar, Zeros;
      ok := true;
      ghost var p, all, beyond := position, Bits(), isReadBeyondEnd;
      ghost var fits := Left(n);
      var mul := TopMask(n);
      MaskSteps(n, 0);
      NothingSoFar(all, p, n);
      for i := 0 to n
        invariant Valid() && Bits() == all && 0 <= mul && (i < n ==> mul == MaskAt(n, i)) && value < W
        invariant fits ==> Advanced(p, beyond, i) && SoFar(all, p, i, value, n)
        invariant !fits ==> (position == length && isReadBeyondEnd) || position == p + i
      {
        var bit := ReadBit();
        if fits {
          NextSoFar(all, p, i, bit, value, n);
        }
        MaskSteps(n, i);
        MaskFits(n, i, value);
        if bit {
          value := Or(value, mul);
        }
        mul := mul / 2;
      }
      if fits {
        AllRead(all, p, value, n);
      }
    }

    method ReadUint4() returns (value: Byte)
      requires Valid()
      modifies this
      ensures old(Left(4)) ==> value == FromBits(old(Next(4))) && Advanced(old(position), old(isReadBeyondEnd), 4)
      ensures !old(Left(4)) ==> isReadBeyondEnd && Valid() && position == length
    {
      hide AllBits, Bits;
      ghost var p, all, fits := position, Bits(), Left(4);
      var x3, x2 := ReadTwoBits();
      var x1, x0 := ReadTwoBits();
      if fits {
        assert all[p..p + 4] == all[p..p + 2] + all[p + 2..p + 4];
      }
      FourDigits(x3, x2, x1, x0);
      value := if x3 then 8 else 0;
      if x2 {
        value := value + 4;
      }
      if x1 {
        value := value + 2;
      }
      if x0 {
        value := value + 1;
      }
    }

    /**
     * Copies whole bytes, at a byte boundary; behind the end there are none. If the stream ends within a byte that
     * is asked for, the conversion of what is left into bytes throws.
     */
    method ReadBytes(n: nat) returns (ok: bool, bytes: seq<Byte>)
      requires Valid() && position % 8 == 0
      modifies this
      ensures ok == (old(Left(8 * n)) || length % 8 == 0)
      ensures old(Left(8 * n)) ==>
        AllBits(bytes) == old(Next(8 * n)) && Advanced(old(position), old(isReadBeyondEnd), 8 * n)
      ensures ok && !old(Left(8 * n)) ==> AllBits(bytes) == Bits()[old(position)..] && Advanced(length, true, 0)
      ensures !ok ==> bytes == [] && Advanced(old(position), old(isReadBeyondEnd), 0)
    {
      hide AllBits;
      var count := n;
      if position + 8 * n > length {
        if (length - position) % 8 != 0 {
          return false, [];
        }
        count := (length - position) / 8;
        isReadBeyondEnd := true;
      }
      var k := position / 8;
      BytesHere(k, count);
      ok, bytes := true, data[k..k + count];
      position := position + 8 * count;
    }

    lemma BytesHere(k: nat, n: nat)
      requires Valid() && position == 8 * k && position + 8 * n <= length
      ensures k + n <= |data| && AllBits(data[k..k + n]) == Bits()[position..position + 8 * n]
    {
      hide AllBits;
      BytesAt(data, k, n);
      FrontOf(AllBits(data), length, position, 8 * n);
    }

    /** Reads bytes up to a zero, which the end of the stream counts as. */
    method ReadString() returns (s: seq<Byte>)
      requires Valid()
      modifies this
      ensures Valid() && s == StringIn(Bits()[old(position)..])
      ensures position == if old(Left(8 * |s| + 8)) then old(position) + 8 * |s| + 8 else length
      ensures isReadBeyondEnd == (old(isReadBeyondEnd) || !old(Left(8 * |s| + 8)))
    {
      hide AllBits, BitsOf, FromBits;
      s := [];
      ghost var p := position;
      ghost var rest := Bits()[p..];
      var byte := ReadNext(rest);
      while byte != 0
        invariant Valid() && (byte != 0 ==> position == p + 8 * |s| + 8 && isReadBeyondEnd == old(isReadBeyondEnd))
        invariant byte != 0 ==> StringIn(Bits()[p..]) == s + [byte] + StringIn(Bits()[position..])
        invariant byte == 0 ==> StringIn(Bits()[p..]) == s
        invariant byte == 0 ==> position == if old(Left(8 * |s| + 8)) then p + 8 * |s| + 8 else length
        invariant byte == 0 ==> isReadBeyondEnd == (old(isReadBeyondEnd) || !old(Left(8 * |s| + 8)))
        decreases length - position, byte != 0
      {
        s := s + [byte];
        ghost var t := StringIn(Bits()[position..]);
        byte := ReadNext(Bits()[position..]);
        if byte != 0 {
          assert s + t == s + [byte] + StringIn(Bits()[position..]);
        }
      }
    }

    method ReadNext(ghost rest: seq<bool>) returns (byte: Byte)
      requires Valid() && rest == Bits()[position..]
      modifies this
      ensures Valid() && (byte != 0 ==> old(Left(8)))
      ensures old(Left(8)) ==> Advanced(old(position), old(isReadBeyondEnd), 8)
      ensures !old(Left(8)) ==> Advanced(length, true, 0)
      ensures StringIn(rest) == if byte == 0 then [] else [byte] + StringIn(Bits()[position..])
    {
      hide AllBits, BitsOf, FromBits, Bits;
      ghost var q := position;
      byte := ReadByte();
      if q + 8 <= length {
        assert rest[..8] == Bits()[q..q + 8] && rest[8..] == Bits()[q + 8..];
        FromBitsOf(byte, 8);
        BytePower();
        DivUnique(byte, 256, 0, byte);
      }
    }
  }

  lemma Spliced<T>(s: seq<T>, p: nat, q: nat, r: nat)
    requires p <= q <= r <= |s|
    ensures s[p..r] == s[p..q] + s[q..r]
  {
  }

  lemma Pow2OfZero(x: nat)
    ensures x * Pow2(0) == x
  {
  }

  lemma NothingRead(n: nat)
    ensures FromBits([]) * Pow2(n) == 0
  {
  }

  lemma Pow2Product(x: nat, n: nat)
    ensures x * Pow2(n) >= 0
  {
    MultipleGrows(x, Pow2(n));
  }

  /** The next byte of a number whose highest bytes have been read. */
  lemma BigDigit(all: seq<bool>, p: nat, q: nat, byte: Byte, value: nat, n: nat)
    requires p <= q && q + 8 <= |all| && BitsOf(byte, 8) == all[q..q + 8]
    requires value == FromBits(all[p..q]) * Pow2(n + 8)
    ensures byte * Pow2(n) >= 0 && Or(value, byte * Pow2(n)) == FromBits(all[p..q + 8]) * Pow2(n)
  {
    hide BitsOf, FromBits, Or, Pow2;
    var done := FromBits(all[p..q]);
    assert all[p..q + 8] == all[p..q] + all[q..q + 8];
    FromBitsJoin(all[p..q], all[q..q + 8]);
    FromBitsOf(byte, 8);
    BytePower();
    DivUnique(byte, 256, 0, byte);
    Pow2Product(byte, n);
    Pow2Add(8, n);
    Ordered(256, byte + 1, Pow2(n));
    assert (byte + 1) * Pow2(n) == byte * Pow2(n) + Pow2(n);
    OrIsSum(byte * Pow2(n), done, n + 8);
    assert (done * 256 + byte) * Pow2(n) == done * (256 * Pow2(n)) + byte * Pow2(n);
  }

  /** The next byte of a number whose lowest bytes have been read. */
  lemma LittleDigit(low: seq<bool>, next: seq<bool>, byte: Byte, value: nat)
    requires |low| % 8 == 0 && next == BitsOf(byte, 8) && value == FromLittle(low) && value < Pow2(|low|)
    ensures byte * Pow2(|low|) >= 0 && Or(value, byte * Pow2(|low|)) == FromLittle(low + next) < Pow2(|low| + 8)
  {
    hide BitsOf, FromBits, Or, Pow2;
    var n := |low|;
    FromBitsOf(byte, 8);
    BytePower();
    DivUnique(byte, 256, 0, byte);
    Pow2Product(byte, n);
    OrIsSum(value, byte, n);
    Cut(low, next, []);
    Pow2Add(8, n);
    Ordered(256, byte + 1, Pow2(n));
    assert (byte + 1) * Pow2(n) == byte * Pow2(n) + Pow2(n);
  }

  lemma LittleNothing()
    ensures FromLittle([]) == 0 < Pow2(8 * 0)
  {
  }

  /** What has been read after `i` of `n` bits; of 32 bits, one that is set makes the number too large. */
  ghost predicate SoFar(all: seq<bool>, p: nat, i: nat, value: nat, n: nat) {
    p + i <= |all| && i <= n &&
    if n <= 31 then value == FromBits(all[p..p + i]) * Pow2(n - i)
    else if Blank(all[p..p + i]) then value == 0
    else value >= 0x1_0000_0000
  }

  lemma NothingSoFar(all: seq<bool>, p: nat, n: nat)
    requires p <= |all|
    ensures SoFar(all, p, 0, 0, n)
  {
    assert all[p..p] == [] == Zeros(0);
    NothingRead(n);
  }

  lemma NextSoFar(all: seq<bool>, p: nat, i: nat, bit: bool, value: nat, n: nat)
    requires 0 < n <= 32 && i < n && p + i < |all| && all[p + i] == bit && SoFar(all, p, i, value, n)
    ensures SoFar(all, p, i + 1, if bit then Or(value, MaskAt(n, i)) else value, n)
  {
    hide Or, FromBits, Blank;
    if n <= 31 {
      NextDigit(all, p, p + i, bit, value, n - 1 - i);
    } else {
      hide MaskAt;
      assert all[p..p + i + 1] == all[p..p + i] + [bit];
      BlankJoin(all[p..p + i], [bit]);
      OneBit(bit);
      WideMaskIsLarge(i);
      OrGrows(value, MaskAt(32, i));
    }
  }

  lemma OneBit(bit: bool)
    ensures Blank([bit]) <==> !bit
  {
    assert Zeros(1) == [false];
  }

  lemma WideMaskIsLarge(i: nat)
    requires i < 32
    ensures MaskAt(32, i) >= 0x1_0000_0000
  {
    Pow2Words32();
    hide Pow2;
    Pow2Add(31 - i, 33);
    Grows(Pow2(33) - 1, Pow2(31 - i));
    assert Pow2(31 - i) * Pow2(33) == (Pow2(33) - 1) * Pow2(31 - i) + Pow2(31 - i);
  }

  lemma {:induction false} OrGrows(a: nat, b: nat)
    ensures Or(a, b) >= a && Or(a, b) >= b
  {
    if a > 0 && b > 0 {
      OrGrows(a / 2, b / 2);
    }
  }

  lemma MaskFits(n: nat, i: nat, value: U64)
    requires 0 < n <= 32 && i < n
    ensures Or(value, MaskAt(n, i)) < W
  {
    Pow2Words();
    Pow2Grows(if n == 32 then 64 - i else n - 1 - i, if n == 32 then 64 else 63);
    BitwiseFits(value, MaskAt(n, i), 64);
  }

  lemma AllRead(all: seq<bool>, p: nat, value: nat, n: nat)
    requires 0 < n <= 32 && SoFar(all, p, n, value, n)
    ensures n <= 31 || Blank(all[p..p + n]) ==> value == FromBits(all[p..p + n])
    ensures n == 32 && !Blank(all[p..p + n]) ==> value >= 0x1_0000_0000
    ensures n == 32 ==> FromBits(all[p..p + n]) < 0x1_0000_0000
  {
    hide FromBits;
    var b := all[p..p + n];
    BitsOfFrom(b);
    FromZeros(n);
    Pow2Words32();
    Pow2OfZero(FromBits(b));
  }

  /** The next bit of a number whose highest bits have been read. */
  lemma NextDigit(all: seq<bool>, p: nat, q: nat, bit: bool, value: nat, n: nat)
    requires p <= q < |all| && all[q] == bit && value == FromBits(all[p..q]) * Pow2(n + 1)
    ensures (if bit then Or(value, Pow2(n)) else value) == FromBits(all[p..q + 1]) * Pow2(n)
  {
    var done := FromBits(all[p..q]);
    assert all[p..q + 1][..q - p] == all[p..q];
    hide FromBits, Or;
    OrIsSum(Pow2(n), done, n + 1);
    Doubled(done, Pow2(n), if bit then 1 else 0);
  }

  lemma Doubled(d: int, p: int, b: int)
    ensures d * (2 * p) + b * p == (2 * d + b) * p
  {
  }

  lemma FourDigits(x3: bool, x2: bool, x1: bool, x0: bool)
    ensures FromBits([x3, x2] + [x1, x0]) ==
      (if x3 then 8 else 0) + (if x2 then 4 else 0) + (if x1 then 2 else 0) + if x0 then 1 else 0
  {
    TwoDigits(x3, x2);
    TwoDigits(x1, x0);
    FromBitsJoin([x3, x2], [x1, x0]);
  }

  lemma TwoDigits(x: bool, y: bool)
    ensures FromBits([x, y]) == (if x then 2 else 0) + if y then 1 else 0
    ensures Pow2(|[x, y]|) == 4
  {
    assert [x, y][..1] == [x] && [x][..0] == [];
    assert FromBits([x]) == if x then 1 else 0;
    assert Pow2(2) == 4;
  }

  lemma FrontOf<T>(s: seq<T>, m: nat, i: nat, n: nat)
    requires i + n <= m <= |s|
    ensures s[..m][i..i + n] == s[i..i + n]
  {
  }

  lemma BytesAt(data: seq<Byte>, k: nat, n: nat)
    requires k + n <= |data|
    ensures AllBits(data[k..k + n]) == AllBits(data)[8 * k..8 * (k + n)]
  {
    hide AllBits;
    var a, b, c := data[..k], data[k..k + n], data[k + n..];
    assert data == a + b + c;
    AllBitsJoin(a + b, c);
    AllBitsJoin(a, b);
    Cut(AllBits(a), AllBits(b), AllBits(c));
  }

  /** The bytes in front of the first zero byte. */
  ghost function StringIn(b: seq<bool>): seq<Byte>
    decreases |b|
  {
    if |b| < 8 then []
    else
      BitsOfFrom(b[..8]);
      BytePower();
      var v := FromBits(b[..8]);
      if v == 0 then [] else [v] + StringIn(b[8..])
  }

  /** A string is read back exactly if its bits and those of a zero are next, and it has no zeros. */
  lemma ShownText(t: seq<Byte>, rest: seq<bool>)
    requires 8 * |t| + 8 <= |rest|
    ensures StringIn(rest) == t <==>
            rest[..8 * |t| + 8] == AllBits(t + [0]) && forall i :: 0 <= i < |t| ==> t[i] != 0
  {
    hide AllBits, StringIn;
    var k := 8 * |t| + 8;
    if rest[..k] == AllBits(t + [0]) && forall i :: 0 <= i < |t| ==> t[i] != 0 {
      StringReadBack(t, rest[k..]);
      assert rest == rest[..k] + rest[k..];
    }
    if StringIn(rest) == t {
      TextShown(rest);
    }
  }

  lemma {:induction false} TextShown(rest: seq<bool>)
    ensures forall i :: 0 <= i < |StringIn(rest)| ==> StringIn(rest)[i] != 0
    ensures StartsWith(rest, StringIn(rest))
    decreases |rest|
  {
    if |rest| >= 8 {
      TextHead(rest);
      TextShown(rest[8..]);
      hide StringIn, FromBits, AllBits, StartsWith;
      var v := FromBits(rest[..8]);
      if v == 0 {
        NoTextLeft(rest);
      } else {
        LongerText(rest, v, StringIn(rest[8..]));
      }
    }
  }

  /** The bits of the string and a zero are in front, if there are as many bits. */
  ghost predicate StartsWith(rest: seq<bool>, t: seq<Byte>) {
    8 * |t| + 8 <= |rest| ==> rest[..8 * |t| + 8] == AllBits(t + [0])
  }

  lemma TextHead(rest: seq<bool>)
    requires |rest| >= 8
    ensures var v := FromBits(rest[..8]);
      v < 256 && AllBits([v]) == rest[..8] && StringIn(rest) == if v == 0 then [] else [v] + StringIn(rest[8..])
  {
    BitsOfFrom(rest[..8]);
    BytePower();
    AllBitsOfOne(FromBits(rest[..8]));
  }

  lemma AllBitsOfOne(v: Byte)
    ensures AllBits([v]) == BitsOf(v, 8)
  {
    AllBitsAppend([], v);
    assert AllBits([]) + BitsOf(v, 8) == BitsOf(v, 8) && [] + [v] == [v];
  }

  lemma NoTextLeft(rest: seq<bool>)
    requires |rest| >= 8 && AllBits([0]) == rest[..8]
    ensures StartsWith(rest, [])
  {
    assert [] + [0] == [0];
  }

  lemma LongerText(rest: seq<bool>, v: Byte, t: seq<Byte>)
    requires |rest| >= 8 && AllBits([v]) == rest[..8] && StartsWith(rest[8..], t)
    ensures StartsWith(rest, [v] + t)
  {
    hide AllBits;
    Grouped([v], t, [0]);
    AllBitsJoin([v], t + [0]);
    if 8 * |t| + 16 <= |rest| {
      assert rest[..8 * |t| + 16] == rest[..8] + rest[8..][..8 * |t| + 8];
    }
  }

  lemma ShownNumber(next: seq<bool>, v: nat, n: nat)
    requires |next| == n
    ensures FromBits(next) == v % Pow2(n) <==> next == BitsOf(v, n)
  {
    FromBitsOf(v, n);
    BitsOfFrom(next);
    BitsOfMod(v, n);
  }

  lemma ShownLittle(next: seq<bool>, v: nat, n: nat)
    requires |next| == 8 * n
    ensures FromLittle(next) == v % Pow2(8 * n) <==> next == LittleBits(v, n)
  {
    hide *;
    FromLittleBits(v, n);
    LowBytesAre(v, n);
    LittleDetermines(next, LittleBits(v, n));
  }

  lemma {:induction false} LittleDetermines(a: seq<bool>, b: seq<bool>)
    requires |a| == |b| && |a| % 8 == 0
    ensures FromLittle(a) == FromLittle(b) <==> a == b
  {
    if a == [] {
      assert a == b;
    } else {
      hide *;
      var m := |a| - 8;
      LittleDetermines(a[..m], b[..m]);
      LittleParts(a);
      LittleParts(b);
      BitsOfFrom(a[m..]);
      BitsOfFrom(b[m..]);
      Joined(a, b, m);
    }
  }

  lemma Joined<T>(a: seq<T>, b: seq<T>, m: nat)
    requires m <= |a| == |b|
    ensures a == b <==> a[..m] == b[..m] && a[m..] == b[m..]
  {
    assert a == a[..m] + a[m..] && b == b[..m] + b[m..];
  }

  /** The parts that the last byte and those before it make of a little-endian number. */
  lemma LittleParts(a: seq<bool>)
    requires |a| >= 8 && |a| % 8 == 0
    ensures var m := |a| - 8;
      FromLittle(a) % Pow2(m) == FromLittle(a[..m]) && FromLittle(a) / Pow2(m) == FromBits(a[m..])
  {
    var m := |a| - 8;
    LittleFits(a[..m]);
    DivUnique(FromLittle(a), Pow2(m), FromBits(a[m..]), FromLittle(a[..m]));
  }

  lemma {:induction false} LittleFits(a: seq<bool>)
    requires |a| % 8 == 0
    ensures FromLittle(a) < Pow2(|a|)
  {
    if a != [] {
      var m := |a| - 8;
      LittleFits(a[..m]);
      BitsOfFrom(a[m..]);
      hide FromBits, Pow2;
      BytePower();
      DigitFits(FromBits(a[m..]), m, FromLittle(a[..m]));
    }
  }

  lemma DigitFits(byte: nat, m: nat, low: nat)
    requires byte < 256 && low < Pow2(m)
    ensures low + byte * Pow2(m) < Pow2(m + 8)
  {
    hide Pow2;
    BytePower();
    Pow2Add(8, m);
    Ordered(256, byte + 1, Pow2(m));
    assert (byte + 1) * Pow2(m) == byte * Pow2(m) + Pow2(m);
  }

  lemma NoNumber(next: seq<bool>)
    ensures FromBits(next) == 0 <==> Blank(next)
  {
    BitsOfFrom(next);
    NoBits(FromBits(next), |next|);
    DivUnique(FromBits(next), Pow2(|next|), 0, FromBits(next));
  }

  /** A string without zeros is read as it was written. */
  lemma {:induction false} StringReadBack(s: seq<Byte>, rest: seq<bool>)
    requires forall i :: 0 <= i < |s| ==> s[i] != 0
    ensures StringIn(AllBits(s + [0]) + rest) == s
    decreases |s|
  {
    var first, t := (s + [0])[0], (s + [0])[1..];
    assert s + [0] == [first] + t;
    AllBitsJoin([first], t);
    AllBitsAppend([], first);
    assert [] + [first] == [first] && AllBits([]) + BitsOf(first, 8) == BitsOf(first, 8);
    Grouped(BitsOf(first, 8), AllBits(t), rest);
    Cut(BitsOf(first, 8), AllBits(t) + rest, []);
    FromBitsOf(first, 8);
    BytePower();
    DivUnique(first, 256, 0, first);
    if s != [] {
      assert t == s[1..] + [0];
      StringReadBack(s[1..], rest);
    }
  }
}
