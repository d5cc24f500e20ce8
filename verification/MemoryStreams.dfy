/** What is written to an output stream is read back from an input stream over its bytes. */
module MemoryStreams {
  import opened BitMasks
  import opened BitStrings
  import opened MachineWords
  import opened MemoryInputStreams
  import opened MemoryOutputStreams
  import opened MisplacedBytes

  datatype Item =
    | Bit(bit: bool)
    | Bits(bits: seq<bool>)
    | Uint2(value: Byte)
    | Uint4(value: Byte)
    | UintBe(number: nat, size: nat)
    | UintLe(number: nat, size: nat)
    | NBits(word: U64, size: nat)
    | Bytes(bytes: seq<Byte>)
    | Text(text: seq<Byte>)

  ghost function Encoded(item: Item): seq<bool> {
    match item
    case Bit(b) => [b]
    case Bits(b) => b
    case Uint2(v) => BitsOf(v, 2)
    case Uint4(v) => BitsOf(v, 4)
    case UintBe(v, n) => BitsOf(v, 8 * n)
    case UintLe(v, n) => LittleBits(v, n)
    case NBits(v, n) => BitsOf(v, n)
    case Bytes(b) => AllBits(b)
    case Text(t) => AllBits(t + [0])
  }

  /** What the source asserts of its caller: byte sequences start at byte boundaries; numbers of up to 32 bits. */
  predicate Allowed(item: Item, offset: nat) {
    match item
    case NBits(_, n) => 0 < n <= 32
    case Bytes(_) => offset % 8 == 0
    case Text(_) => offset % 8 == 0
    case _ => true
  }

  /**
   * Where the source writes the item as it should: whole bytes at multiples of four bits, unless they are zero, and
   * numbers of 32 single bits if they are ones from the lowest up.
   */
  ghost predicate InPlace(item: Item, offset: nat) {
    match item
    case UintBe(v, n) => offset % 4 == 0 || v % Pow2(8 * n) == 0
    case UintLe(v, n) => offset % 4 == 0 || v % Pow2(8 * n) == 0
    case NBits(v, n) => n == 32 ==> OnlyOnes(v)
    case _ => true
  }

  /** What is read back as it was written: strings without zeros; of the numbers of 32 single bits, only zero. */
  ghost predicate Readable(item: Item) {
    match item
    case NBits(v, n) => n == 32 ==> v % Pow2(32) == 0
    case Text(t) => forall i :: 0 <= i < |t| ==> t[i] != 0
    case _ => true
  }

  ghost predicate Fits(item: Item, offset: nat) {
    InPlace(item, offset) && Readable(item)
  }

  /** What should come back: numbers lose the bits that were not written. */
  function Kept(item: Item): Item {
    match item
    case Uint2(v) => Uint2(v % 4)
    case Uint4(v) => Uint4(v % 16)
    case UintBe(v, n) => UintBe(v % Pow2(8 * n), n)
    case UintLe(v, n) => UintLe(v % Pow2(8 * n), n)
    case NBits(v, n) =>
      ModAtMost(v, Pow2(n));
      NBits(v % Pow2(n), n)
    case _ => item
  }

  ghost function EncodedAll(items: seq<Item>): seq<bool> {
    if items == [] then [] else EncodedAll(items[..|items| - 1]) + Encoded(items[|items| - 1])
  }

  /** The offset of an item: where the items before it end. */
  ghost function Offset(items: seq<Item>, i: nat): nat
    requires i <= |items|
  {
    |EncodedAll(items[..i])|
  }

  ghost predicate AllAllowed(items: seq<Item>) {
    forall i :: 0 <= i < |items| ==> Allowed(items[i], Offset(items, i))
  }

  ghost predicate AllInPlace(items: seq<Item>, n: nat)
    requires n <= |items|
  {
    forall i :: 0 <= i < n ==> InPlace(items[i], Offset(items, i))
  }

  ghost predicate AllFit(items: seq<Item>) {
    forall i :: 0 <= i < |items| ==> Fits(items[i], Offset(items, i))
  }

  /** Writes an item behind what is there, as it should be exactly if it is in place. */
  method Write(out: MemoryOutputStream, item: Item)
    requires out.Valid() && Allowed(item, out.length)
    modifies out
    ensures out.Valid() && out.intended == old(out.intended) + Encoded(item)
    ensures out.spoilt == (old(out.spoilt) || !InPlace(item, old(out.length)))
  {
    hide BitsOf, AllBits, LittleBits, Pow2, Spoilt, IsRight, OnlyOnes;
    match item
    case Bit(b) => out.WriteBit(b);
    case Bits(b) => out.WriteBits(b);
    case Uint2(v) => out.WriteUint2(v);
    case Uint4(v) => out.WriteUint4(v);
    case UintBe(v, n) => out.WriteUintBe(v, n);
    case UintLe(v, n) => out.WriteUintLe(v, n);
    case NBits(v, n) => var ok := out.WriteNBitsOfUint64Be(v, n);
    case Bytes(b) => out.WriteBytes(b);
    case Text(t) => out.WriteString(t);
  }

  /** Reads an item: it is what should come back exactly if its bits are next, and it can be read at all. */
  method Read(stream: MemoryInputStream, item: Item) returns (back: Item)
    requires stream.Valid() && !stream.isReadBeyondEnd
    requires Allowed(item, stream.position) && stream.Left(|Encoded(item)|)
    modifies stream
    ensures stream.Valid()
    ensures back == Kept(item) <==> old(stream.Next(|Encoded(item)|)) == Encoded(item) && Readable(item)
    ensures back == Kept(item) ==> stream.Advanced(old(stream.position), false, |Encoded(item)|)
  {
    hide BitsOf, AllBits, LittleBits, Pow2, FromBits, FromLittle, StringIn, Blank;
    ghost var next := stream.Next(|Encoded(item)|);
    match item
    case Bit(_) =>
      assert next == [next[0]];
      var b := stream.ReadBit();
      back := Bit(b);
    case Bits(bits) =>
      var b := stream.ReadBits(|bits|);
      back := Bits(b);
    case Uint2(v) =>
      ShownNumber(next, v, 2);
      SmallPowers();
      var w := stream.ReadUint2();
      back := Uint2(w);
    case Uint4(v) =>
      ShownNumber(next, v, 4);
      SmallPowers();
      var w := stream.ReadUint4();
      back := Uint4(w);
    case UintBe(v, n) =>
      ShownNumber(next, v, 8 * n);
      var w := stream.ReadUintBe(n);
      back := UintBe(w, n);
    case UintLe(v, n) =>
      ShownLittle(next, v, n);
      var w := stream.ReadUintLe(n);
      back := UintLe(w, n);
    case NBits(v, n) =>
      ShownNumber(next, v, n);
      NoBits(v, n);
      NoNumber(next);
      Pow2Words32();
      var ok, w := stream.ReadNBitsToUint64Be(n);
      back := NBits(w, n);
    case Bytes(b) =>
      var ok, bytes := stream.ReadBytes(|b|);
      if AllBits(bytes) == AllBits(b) {
        AllBitsDetermine(bytes, b);
      }
      back := Bytes(bytes);
    case Text(t) =>
      ghost var rest := stream.Bits()[stream.position..];
      assert next == rest[..|next|];
      ShownText(t, rest);
      var s := stream.ReadString();
      back := Text(s);
  }

  lemma SmallPowers()
    ensures Pow2(2) == 4 && Pow2(4) == 16
  {
    BytePower();
    assert Pow2(2) == 4;
  }

  lemma AllBitsDetermine(a: seq<Byte>, b: seq<Byte>)
    requires AllBits(a) == AllBits(b)
    ensures a == b
  {
    assert |a| == |b|;
    forall i | 0 <= i < |a| ensures a[i] == b[i] {
      ByteAt(a, i);
      ByteAt(b, i);
    }
  }

  /** A mixture of items is written as intended if and only if every item is in place. */
  method WriteAll(items: seq<Item>) returns (out: MemoryOutputStream)
    requires AllAllowed(items)
    ensures fresh(out) && out.Valid() && out.intended == EncodedAll(items)
    ensures out.spoilt == !AllInPlace(items, |items|)
    ensures |out.data| == (out.length + 7) / 8 && (out.Bits() == EncodedAll(items) <==> AllInPlace(items, |items|))
  {
    hide Encoded, Kept, BitsOf, AllBits, Spoilt, IsRight, Allowed, InPlace;
    out := new MemoryOutputStream();
    for i := 0 to |items|
      invariant fresh(out) && out.Valid() && out.intended == EncodedAll(items[..i])
      invariant out.spoilt == !AllInPlace(items, i)
    {
      EncodedNext(items, i);
      Write(out, items[i]);
    }
    assert items[..|items|] == items;
    out.RightUnlessSpoilt();
  }

  lemma EncodedNext(items: seq<Item>, i: nat)
    requires i < |items|
    ensures EncodedAll(items[..i + 1]) == EncodedAll(items[..i]) + Encoded(items[i])
  {
    assert items[..i + 1][..i] == items[..i];
  }

  /**
   * Any mixture of items comes back from the corresponding reads, which end at the end without passing it, if and only
   * if every item fits where it is written. Reading stops at the first item that is not what it should be.
   */
  method RoundTrip(items: seq<Item>) returns (back: seq<Item>, remaining: nat, beyond: bool)
    requires AllAllowed(items)
    ensures AllFit(items) <==> |back| == |items| && forall i :: 0 <= i < |items| ==> back[i] == Kept(items[i])
    ensures AllFit(items) ==> remaining == 0 && !beyond
  {
    hide Encoded, Kept, BitsOf, AllBits, Spoilt, IsRight, Allowed, InPlace, Readable, EncodedAll;
    var out := WriteAll(items);
    var stream := new MemoryInputStream(out.data, out.length);
    back := [];
    ghost var all := EncodedAll(items);
    NoneRead(items, stream.Bits());
    var same, i := true, 0;
    while i < |items| && same
      invariant fresh(stream) && stream.Valid() && |stream.Bits()| == |all|
      invariant i <= |items| && |back| == i && (out.spoilt <==> stream.Bits() != all)
      invariant same ==> stream.Advanced(Offset(items, i), false, 0) && ReadSoFar(items, stream.Bits(), back, i)
      invariant !same ==> !AllFit(items) && i > 0 && back[i - 1] != Kept(items[i - 1])
      decreases |items| - i, same
    {
      ItemNext(items, i);
      var item := Read(stream, items[i]);
      ItemRead(items, stream.Bits(), back, i, item);
      back := back + [item];
      same := item == Kept(items[i]);
      i := i + 1;
    }
    if same {
      AllItemsRead(items, stream.Bits(), back);
    }
    remaining, beyond := stream.length - stream.position, stream.isReadBeyondEnd;
  }

  /** The first `i` items have come back, their bits are in front, and they can be read. */
  ghost predicate ReadSoFar(items: seq<Item>, bits: seq<bool>, back: seq<Item>, i: nat) {
    i <= |items| && |back| == i && EncodedAll(items[..i]) <= bits &&
    forall j :: 0 <= j < i ==> back[j] == Kept(items[j]) && Readable(items[j])
  }

  lemma NoneRead(items: seq<Item>, bits: seq<bool>)
    ensures ReadSoFar(items, bits, [], 0) && Offset(items, 0) == 0
  {
  }

  lemma ItemNext(items: seq<Item>, i: nat)
    requires i < |items| && AllAllowed(items)
    ensures Allowed(items[i], Offset(items, i))
    ensures Offset(items, i) + |Encoded(items[i])| == Offset(items, i + 1) <= |EncodedAll(items)|
  {
    hide Allowed, Encoded;
    EncodedPrefix(items, i);
  }

  lemma ItemRead(items: seq<Item>, bits: seq<bool>, back: seq<Item>, i: nat, item: Item)
    requires i < |items| && |bits| == |EncodedAll(items)| && ReadSoFar(items, bits, back, i)
    ensures Offset(items, i) + |Encoded(items[i])| == Offset(items, i + 1) <= |bits|
    ensures item == Kept(items[i]) && Readable(items[i]) &&
            bits[Offset(items, i)..Offset(items, i + 1)] == Encoded(items[i]) ==>
            ReadSoFar(items, bits, back + [item], i + 1)
    ensures !(bits[Offset(items, i)..Offset(items, i + 1)] == Encoded(items[i]) && Readable(items[i])) ==>
      bits != EncodedAll(items) || !Readable(items[i])
  {
    hide Encoded, Readable, Kept;
    EncodedPrefix(items, i);
    var p, q := Offset(items, i), Offset(items, i + 1);
    assert bits[..q] == bits[..p] + bits[p..q];
  }

  lemma AllItemsRead(items: seq<Item>, bits: seq<bool>, back: seq<Item>)
    requires ReadSoFar(items, bits, back, |items|) && |bits| == |EncodedAll(items)|
    ensures bits == EncodedAll(items) && Offset(items, |items|) == |bits|
    ensures AllInPlace(items, |items|) <==> AllFit(items)
  {
    hide EncodedAll, InPlace, Readable;
    assert items[..|items|] == items;
  }

  /** A byte behind a single bit is not read back, unless it is zero: its offset is not a multiple of four bits. */
  method BitAndByte(bit: bool, value: Byte) returns (b: bool, v: Byte)
    ensures b == bit && v == value <==> value == 0
  {
    hide BitsOf, AllBits, Spoilt, IsRight;
    var out := new MemoryOutputStream();
    out.WriteBit(bit);
    out.WriteByte(value);
    out.RightUnlessSpoilt();
    var stream := new MemoryInputStream(out.data, out.length);
    ghost var bits := stream.Bits();
    b := stream.ReadBit();
    v := stream.ReadByte();
    assert bits == [bits[0]] + bits[1..9] == [b] + BitsOf(v, 8);
    ByteOfBits(v);
    ByteOfBits(value);
    Cut([b], BitsOf(v, 8), []);
    Cut([bit], BitsOf(value, 8), []);
    assert ([b] + BitsOf(v, 8))[0] == b && ([bit] + BitsOf(value, 8))[0] == bit;
  }

  /** A number written and read as 32 single bits comes back if and only if it is zero. */
  method WideNumber(value: U64) returns (v: nat)
    ensures v == value % Pow2(32) <==> value == 0
  {
    hide BitsOf, AllBits, Spoilt, IsRight, OnlyOnes, Blank;
    var out := new MemoryOutputStream();
    var ok := out.WriteNBitsOfUint64Be(value, 32);
    out.RightUnlessSpoilt();
    var stream := new MemoryInputStream(out.data, out.length);
    ghost var bits := stream.Bits();
    assert stream.Next(32) == bits;
    ok, v := stream.ReadNBitsToUint64Be(32);
    NoNumber(bits);
    NoBits(value, 32);
    ShownNumber(bits, value, 32);
    OnlyZero(value);
    Pow2Words32();
  }

  lemma ByteOfBits(v: Byte)
    ensures FromBits(BitsOf(v, 8)) == v
  {
    FromBitsOf(v, 8);
    BytePower();
    DivUnique(v, 256, 0, v);
  }

  lemma {:induction false} EncodedPrefix(items: seq<Item>, i: nat)
    requires i < |items|
    ensures EncodedAll(items[..i + 1]) == EncodedAll(items[..i]) + Encoded(items[i])
    ensures EncodedAll(items[..i + 1]) <= EncodedAll(items)
    ensures Encoded(items[i]) <= EncodedAll(items)[|EncodedAll(items[..i])|..]
    decreases |items|
  {
    hide Encoded;
    assert items[..i + 1][..i] == items[..i];
    if i + 1 == |items| {
      assert items[..i + 1] == items;
    } else {
      var most := items[..|items| - 1];
      EncodedPrefix(most, i);
      assert most[..i + 1] == items[..i + 1] && most[..i] == items[..i];
      assert EncodedAll(most) <= EncodedAll(items);
    }
  }
}
