/** An in-memory bit stream that is written at its end, most significant bit of a byte first. */
module MemoryOutputStreams {
  import opened BitMasks
  import opened BitStrings
  import opened MachineWords
  import opened MisplacedBytes
  import opened Sequences

  class MemoryOutputStream {
    var data: seq<Byte>
    var length: nat

    /** The bits that the calls so far should have written, and whether one of them has put bits in wrong places. */
    ghost var intended: seq<bool>
    ghost var spoilt: bool

    constructor ()
      ensures Valid() && intended == [] && !spoilt
    {
      data, length, intended, spoilt := [], 0, [], false;
      new;
      assert Zeros(0) == [];
    }

    /** The bytes hold the intended bits and zeros; or something is wrong with them that no later call can repair. */
    ghost predicate Valid()
      reads this
    {
      length == |intended| && if spoilt then Spoilt(AllBits(data), intended) else IsRight(AllBits(data), intended)
    }

    /** What has been written. */
    ghost function Bits(): (b: seq<bool>)
      requires length <= 8 * |data|
      reads this
      ensures |b| == length
    {
      AllBits(data)[..length]
    }

    /** There are as many bytes as the bits need, and the bits are the intended ones unless some have been misplaced. */
    lemma RightUnlessSpoilt()
      requires Valid()
      ensures |data| == (length + 7) / 8 && (Bits() == intended <==> !spoilt)
      ensures !spoilt ==> AllBits(data) == intended + Zeros(8 * |data| - length)
    {
      hide AllBits;
      if spoilt {
        SpoiltDiffers(AllBits(data), intended);
      } else {
        RightInFront(AllBits(data), intended);
      }
    }

    /** Writes a bit; a caller may have meant another one. */
    method WriteBit(value: bool, ghost meant: bool := value)
      requires Valid()
      modifies this
      ensures Valid() && intended == old(intended) + [meant] && spoilt == (old(spoilt) || value != meant)
    {
      hide AllBits, Or, Pow2, Spoilt, IsRight, WithBit;
      RightUnlessSpoilt();
      BitWritten(data, length, value);
      if spoilt {
        SpoiltBit(AllBits(data), intended, value, meant);
      } else {
        RightBit(AllBits(data), intended, value, meant);
      }
      intended, spoilt := intended + [meant], spoilt || value != meant;
      PutBit(value);
    }

    /** The byte with the bit as the source puts it. */
    method PutBit(value: bool)
      requires |data| == (length + 7) / 8
      modifies this`data, this`length
      ensures data == WithBit(old(data), old(length), value) && length == old(length) + 1
    {
      hide Or, Pow2, BitsOf;
      var byteIndex, bitIndex := length / 8, length % 8;
      BitInByte(if bitIndex == 0 then 0 else data[|data| - 1], value, 7 - bitIndex);
      if bitIndex == 0 {
        data := data + [0];
        if value {
          data := data[byteIndex := 128];
        }
      } else if value {
        data := data[byteIndex := Or(data[byteIndex], Pow2(7 - bitIndex))];
      }
      length := length + 1;
    }

    /**
     * Writes a byte. Away from byte boundaries the source swaps the sizes of its two parts, so that the bits come out
     * right exactly if the parts have the same size or the byte is zero.
     */
    method WriteByte(value: Byte)
      requires Valid()
      modifies this
      ensures Valid() && intended == old(intended) + BitsOf(value, 8)
      ensures spoilt == (old(spoilt) || (old(length) % 4 != 0 && value != 0))
    {
      hide AllBits, BitsOf, WithByte, ByteStep, Spoilt, IsRight, Blank;
      RightUnlessSpoilt();
      ghost var b := BitsOf(value, 8);
      ByteWritten(data, length, value);
      ZeroBits(value);
      ghost var now := AllBits(WithByte(data, length, value));
      if spoilt {
        SpoiltByte(AllBits(data), intended, now, b);
      } else {
        RightByte(AllBits(data), intended, now, b);
      }
      intended, spoilt := intended + b, spoilt || (length % 4 != 0 && value != 0);
      PutByte(value);
    }

    /** The bytes as the source puts them. */
    method PutByte(value: Byte)
      requires |data| == (length + 7) / 8
      modifies this`data, this`length
      ensures data == WithByte(old(data), old(length), value) && length == old(length) + 8
    {
      hide FirstPart, SecondPart, Or;
      var l1 := length % 8;
      if l1 == 0 {
        data := data + [value];
      } else {
        var front, last := data[..|data| - 1], data[|data| - 1];
        InByte(last, value, l1);
        data := front + [Or(last, FirstPart(value, l1)), SecondPart(value, l1)];
      }
      length := length + 8;
    }

    method WriteBits(bits: seq<bool>)
      requires Valid()
      modifies this
      ensures Valid() && intended == old(intended) + bits && spoilt == old(spoilt)
    {
      hide Valid;
      for i := 0 to |bits|
        invariant Valid() && intended == old(intended) + bits[..i] && spoilt == old(spoilt)
      {
        WriteBit(bits[i]);
      }
    }

    method WriteUint2(value: Byte)
      requires Valid()
      modifies this
      ensures Valid() && intended == old(intended) + BitsOf(value, 2) && spoilt == old(spoilt)
    {
      hide BitsOf, Valid;
      TwoBits(value);
      WriteBit(And(value, 2) != 0);
      WriteBit(And(value, 1) != 0);
    }

    method WriteUint4(value: Byte)
      requires Valid()
      modifies this
      ensures Valid() && intended == old(intended) + BitsOf(value, 4) && spoilt == old(spoilt)
    {
      hide BitsOf, Valid;
      FourBits(value);
      WriteBit(And(value, 8) != 0);
      WriteBit(And(value, 4) != 0);
      WriteBit(And(value, 2) != 0);
      WriteBit(And(value, 1) != 0);
    }

    /** One byte of a number. */
    method WritePart(value: nat, k: nat)
      requires Valid()
      modifies this
      ensures Valid() && intended == old(intended) + BitsOf(Shifted(value, k), 8)
      ensures spoilt == (old(spoilt) || (old(length) % 4 != 0 && !Blank(BitsOf(Shifted(value, k), 8))))
      ensures length == old(length) + 8
    {
      hide BitsOf, Shifted, Blank, Spoilt, IsRight;
      LowByte(Shifted(value, k));
      WriteByte(Shifted(value, k) % 256);
    }

    /** Writes the lowest `n` bytes of a number, the highest of them first. */
    method WriteUintBe(value: nat, n: nat)
      requires Valid()
      modifies this
      ensures Valid() && intended == old(intended) + BitsOf(value, 8 * n)
      ensures spoilt == (old(spoilt) || (old(length) % 4 != 0 && value % Pow2(8 * n) != 0))
    {
      hide *;
      ghost var start := intended;
      var k: nat := n;
      NoHighBytes(value, n);
      while k > 0
        invariant k <= n && Valid() && length == old(length) + 8 * (n - k)
        invariant intended == start + HighBytes(value, n, k)
        invariant spoilt == (old(spoilt) || (old(length) % 4 != 0 && !Blank(HighBytes(value, n, k))))
      {
        k := k - 1;
        HighStep(value, n, k);
        BlankJoin(HighBytes(value, n, k + 1), BitsOf(Shifted(value, k), 8));
        Grouped(start, HighBytes(value, n, k + 1), BitsOf(Shifted(value, k), 8));
        WritePart(value, k);
      }
      AllBytes(value, n);
    }

    /** Writes the lowest `n` bytes of a number, the lowest of them first. */
    method WriteUintLe(value: nat, n: nat)
      requires Valid()
      modifies this
      ensures Valid() && intended == old(intended) + LittleBits(value, n)
      ensures spoilt == (old(spoilt) || (old(length) % 4 != 0 && value % Pow2(8 * n) != 0))
    {
      hide *;
      ghost var start := intended;
      NoneBlank(value);
      for k := 0 to n
        invariant Valid() && length == old(length) + 8 * k && intended == start + LittleBits(value, k)
        invariant spoilt == (old(spoilt) || (old(length) % 4 != 0 && !Blank(LittleBits(value, k))))
      {
        LittleStep(value, k);
        BlankJoin(LittleBits(value, k), BitsOf(Shifted(value, k), 8));
        Grouped(start, LittleBits(value, k), BitsOf(Shifted(value, k), 8));
        WritePart(value, k);
      }
      NoLittleBits(value, n);
      LowBytesAre(value, n);
    }

    /** Copies whole bytes, at a byte boundary. */
    method WriteBytes(bytes: seq<Byte>)
      requires Valid() && length % 8 == 0
      modifies this
      ensures Valid() && intended == old(intended) + AllBits(bytes) && spoilt == old(spoilt)
    {
      hide AllBits, Spoilt, IsRight;
      AllBitsJoin(data, bytes);
      SpoiltBytes(AllBits(data), intended, AllBits(bytes));
      data, length := data + bytes, length + 8 * |bytes|;
      intended := intended + AllBits(bytes);
    }

    /** Writes the characters and a zero. */
    method WriteString(s: seq<Byte>)
      requires Valid() && length % 8 == 0
      modifies this
      ensures Valid() && intended == old(intended) + AllBits(s + [0]) && spoilt == old(spoilt)
    {
      hide AllBits, BitsOf, Spoilt, IsRight;
      AllBitsAppend(s, 0);
      Grouped(intended, AllBits(s), BitsOf(0, 8));
      WriteBytes(s);
      WriteByte(0);
    }

    /**
     * Writes the lowest `n` bits of a number; the source throws for 0 and for more than 64 of them. Of 32 bits the
     * widened mask makes something else, unless there are only ones.
     */
    method WriteNBitsOfUint64Be(value: U64, n: nat) returns (ok: bool)
      requires Valid() && (n <= 32 || n > 64)
      modifies this
      ensures Valid() && ok == (0 < n <= 64)
      ensures intended == if ok then old(intended) + BitsOf(value, n) else old(intended)
      ensures spoilt == (old(spoilt) || (n == 32 && !OnlyOnes(value)))
    {
      if n == 0 || n > 64 {
        return false;
      }
      hide *;
      ok := true;
      ghost var start, b := intended, BitsOf(value, n);
      var mul := TopMask(n);
      NoneLegible(value, n);
      StartOf(start, b);
      for i := 0 to n
        invariant Valid() && (i < n ==> mul == MaskAt(n, i)) && mul >= 0
        invariant intended == start + b[..i] && spoilt == (old(spoilt) || !AllLegible(value, n, i))
      {
        NextLegible(value, n, i);
        NextBit(start, b, i);
        WriteBit(And(value, mul) != 0, b[i]);
        mul := mul / 2;
      }
      AllOf(start, b);
      WhichLegible(value, n);
    }
  }

  lemma StartOf<T>(a: seq<T>, b: seq<T>)
    ensures a + b[..0] == a
  {
  }

  lemma NextBit<T>(a: seq<T>, b: seq<T>, i: nat)
    requires i < |b|
    ensures a + b[..i + 1] == a + b[..i] + [b[i]]
  {
  }

  lemma AllOf<T>(a: seq<T>, b: seq<T>)
    ensures a + b[..|b|] == a + b
  {
  }

  lemma NoneLegible(value: nat, n: nat)
    requires 0 < n <= 32
    ensures AllLegible(value, n, 0) && TopMask(n) == MaskAt(n, 0)
  {
    MaskSteps(n, 0);
  }

  lemma NextLegible(value: nat, n: nat, i: nat)
    requires 0 < n <= 32 && i < n
    ensures AllLegible(value, n, i + 1) <==>
            AllLegible(value, n, i) && (And(value, MaskAt(n, i)) != 0 <==> BitsOf(value, n)[i])
    ensures MaskAt(n, i) / 2 >= 0 && (i + 1 < n ==> MaskAt(n, i) / 2 == MaskAt(n, i + 1))
  {
    MaskSteps(n, i);
    hide And, MaskAt, BitsOf;
    BitsOfDigit(value, n, i);
  }

  lemma WhichLegible(value: U64, n: nat)
    requires 0 < n <= 32
    ensures !AllLegible(value, n, n) <==> n == 32 && !OnlyOnes(value)
  {
    hide AllLegible, OnlyOnes;
    if n == 32 {
      WideLegible(value);
    } else {
      SmallLegible(value, n, n);
    }
  }

  lemma NoHighBytes(v: nat, n: nat)
    ensures HighBytes(v, n, n) == [] && Blank(HighBytes(v, n, n))
  {
    hide BitsOf, Shifted;
  }

  lemma TwoBits(v: nat)
    ensures BitsOf(v, 2) == [And(v, 2) != 0, And(v, 1) != 0]
  {
    assert Pow2(1) == 2 && Pow2(0) == 1;
    AndBit(v, 1);
    AndBit(v, 0);
    BitsOfDigit(v, 2, 0);
    BitsOfDigit(v, 2, 1);
  }

  lemma FourBits(v: nat)
    ensures BitsOf(v, 4) == [And(v, 8) != 0, And(v, 4) != 0, And(v, 2) != 0, And(v, 1) != 0]
  {
    assert Pow2(3) == 8 && Pow2(2) == 4;
    AndBit(v, 3);
    AndBit(v, 2);
    BitsOfDigit(v, 4, 0);
    BitsOfDigit(v, 4, 1);
    TwoBits(v);
    BitsOfJoin(v, 2, 2);
    Cut(BitsOf(v / Pow2(2), 2), BitsOf(v, 2), []);
  }
}
