/** Bit streams in memory (MemoryOutputStream.h, MemoryInputStream.h). */
module MemoryStreams {
  import opened Bitwise
  import opened Prelude

  type Byte = x: int | 0 <= x < 256

  // ---------- bytes as one number ----------

  // The bits of the bytes, the first byte first and its highest bit first, as one number.
  function Num(d: seq<Byte>): (r: int)
    ensures r >= 0
  {
    if d == [] then 0 else 256 * Num(d[..|d| - 1]) + d[|d| - 1]
  }

  lemma NumPush(d: seq<Byte>, x: Byte)
    ensures Num(d + [x]) == 256 * Num(d) + x
  {
    assert (d + [x])[..|d|] == d;
  }

  lemma NumLast(d: seq<Byte>, x: Byte)
    requires d != []
    ensures Num(d[|d| - 1 := x]) == Num(d) - d[|d| - 1] + x
  {
    assert d[|d| - 1 := x][..|d| - 1] == d[..|d| - 1];
  }

  lemma {:induction false} NumJoin(a: seq<Byte>, b: seq<Byte>)
    ensures Num(a + b) == Shl(Num(a), 8 * |b|) + Num(b)
    decreases |b|
  {
    if b == [] {
      assert a + b == a;
    } else {
      var front := b[..|b| - 1];
      NumJoin(a, front);
      assert a + b == (a + front) + [b[|b| - 1]];
      NumPush(a + front, b[|b| - 1]);
      ShlEight(Num(a), 8 * |front|);
    }
  }

  lemma {:induction false} NumBelow(d: seq<Byte>)
    ensures Num(d) < Pow2(8 * |d|)
  {
    if d != [] {
      NumBelow(d[..|d| - 1]);
      ShlEight(1, 8 * (|d| - 1));
    }
  }

  // The number of the first bytes is what is left when the others are shifted out.
  lemma NumPrefix(d: seq<Byte>, i: nat)
    requires i <= |d|
    ensures Shr(Num(d), 8 * (|d| - i)) == Num(d[..i])
  {
    var a, b, m := d[..i], d[i..], 8 * (|d| - i);
    assert a + b == d;
    NumJoin(a, b);
    NumBelow(b);
    ShrUnique(Num(d), m, Num(a), Num(b));
  }

  lemma {:induction false} OrBelow(a: nat, b: nat, n: nat)
    requires a < Pow2(n) && b < Pow2(n)
    ensures 0 <= Or(a, b) < Pow2(n)
    decreases n
  {
    if n > 0 {
      OrBelow(a / 2, b / 2, n - 1);
    }
  }

  lemma Small()
    ensures Pow2(8) == 256 && Pow2(4) == 16 && Pow2(0) == 1
  {
    ShlEight(1, 0);
    assert Pow2(4) == 2 * Shl(1, 3) && Shl(1, 3) == 2 * Shl(1, 2) && Shl(1, 2) == 2 * Shl(1, 1) && Shl(1, 1) == 2;
  }

  // ---------- what the parts of a byte are ----------

  // The bits of v that writeByte joins to the last byte, and those it puts into a new one,
  // at l1 bits into a byte.
  function FirstPart(v: Byte, l1: nat): nat
    requires 0 < l1 < 8
  {
    Shr(And(v, Shl(0xFF, 8 - l1)), 8 - l1)
  }

  function SecondPart(v: Byte, l1: nat): int
    requires 0 < l1 < 8
  {
    Low(Shl(And(v, Shr(0xFF, l1)), l1), 8)
  }

  // The parts of v that belong there.
  predicate RightParts(v: Byte, l1: nat)
    requires 0 < l1 < 8
  {
    FirstPart(v, l1) == Shr(v, l1) && SecondPart(v, l1) == Shl(Low(v, l1), 8 - l1)
  }

  lemma PartsMeaning(v: Byte, l1: nat)
    requires 0 < l1 < 8
    ensures FirstPart(v, l1) == Shr(v, 8 - l1)
    ensures SecondPart(v, l1) == Shl(Low(v, 8 - l1), l1) < 256
  {
    Small();
    var l2 := 8 - l1;
    FirstMask(v, l2);
    SecondMask(v, l1, l2);
  }

  lemma HighMask(l2: nat, k: nat)
    requires k == 8 + l2
    ensures Shl(0xFF, l2) == Pow2(k) - 1 - (Pow2(l2) - 1)
  {
    Small();
    ShlTwice(1, 8, l2);
    ShlSum(Pow2(8), 0xFF, 1, l2);
  }

  lemma FirstMask(v: Byte, l2: nat)
    ensures Shl(0xFF, l2) >= 0 && Shr(And(v, Shl(0xFF, l2)), l2) == Shr(v, l2)
  {
    Small();
    var k := 8 + l2;
    HighMask(l2, k);
    Pow2Grows(8, k);
    Pow2Grows(l2, k);
    AndLow(v, l2);
    AndNot(v, Pow2(l2) - 1, k);
    ShrLow(v, l2);
    ShrUnique(v - Low(v, l2), l2, Shr(v, l2), 0);
  }

  lemma SecondMask(v: Byte, l1: nat, l2: nat)
    requires l1 + l2 == 8
    ensures Shr(0xFF, l1) >= 0 && Low(Shl(And(v, Shr(0xFF, l1)), l1), 8) == Shl(Low(v, l2), l1) < 256
  {
    Small();
    ShlTwice(1, l2, l1);
    ShlSum(Pow2(l2), Pow2(l2) - 1, 1, l1);
    ShrUnique(0xFF, l1, Pow2(l2) - 1, Pow2(l1) - 1);
    AndLow(v, l2);
    var low := Low(v, l2);
    ShlOrder(low + 1, Pow2(l2), l1);
    ShlAdd(low, 1, l1);
    SmallShr(Shl(low, l1), 8);
  }

  // writeByte divides bytes as it should in the middle of a byte only - not even the byte 1 elsewhere.
  lemma RightPartsExactly(l1: nat)
    requires 0 < l1 < 8
    ensures (forall v: Byte :: RightParts(v, l1)) <==> l1 == 4
    ensures RightParts(1, l1) <==> l1 == 4
  {
    OneParts(l1, 8 - l1);
    if l1 == 4 {
      forall v: Byte ensures RightParts(v, l1) {
        PartsMeaning(v, l1);
      }
    } else if l1 < 4 {
      Pow2Grows(l1, 8 - l1);
    } else {
      Pow2Grows(8 - l1, l1);
    }
  }

  lemma OneParts(l1: nat, l2: nat)
    requires 0 < l1 < 8 && l1 + l2 == 8
    ensures RightParts(1, l1) <==> Pow2(l1) == Pow2(l2)
  {
    PartsMeaning(1, l1);
    OneShifted(l1);
    OneShifted(l2);
  }

  lemma OneShifted(n: nat)
    requires n > 0
    ensures Low(1, n) == 1 && Shr(1, n) == 0
  {
    Pow2Grows(0, n);
    SmallShr(1, n);
  }

  class MemoryOutputStream {
    var data: seq<Byte>
    var length: nat
    ghost var bits: nat  // what was written, as one number
    ghost var unused: nat  // how many bits of the last byte are not used

    // There are no more bytes than needed.
    ghost predicate Shaped()
      reads this
    {
      unused < 8 && 8 * |data| == length + unused
    }

    // They hold the bits written and zeros in the unused places.
    ghost predicate Valid()
      reads this
    {
      unused < 8 && Holds(data, length, bits, unused)
    }

    constructor ()
      ensures Valid() && length == 0 && bits == 0
    {
      data, length, bits, unused := [], 0, 0, 0;
    }

    method WriteBit(value: bool)
      requires Shaped()
      modifies this
      ensures Shaped() && length == old(length) + 1 && bits == 2 * old(bits) + if value then 1 else 0
      ensures data == PutBit(old(data), old(length), value)
      ensures old(Valid()) ==> Valid()
    {
      if Valid() {
        BitKept(data, length, bits, unused, value);
      }
      var byteIndex, bitIndex := length / 8, length % 8;
      if bitIndex == 0 {
        data := data + [0];
      }
      LastIndex(old(length), unused, |old(data)|);
      BitFits(data[byteIndex], 7 - bitIndex);
      if value {
        data := data[byteIndex := Or(data[byteIndex], Pow2(7 - bitIndex))];
      }
      length := length + 1;
      bits := 2 * bits + if value then 1 else 0;
      unused := if bitIndex == 0 then 7 else unused - 1;
    }

    // At other than the fourth bit of a byte the parts of value are not the right ones.
    method WriteByte(value: Byte)
      requires Shaped()
      modifies this
      ensures Shaped() && length == old(length) + 8 && bits == Append(old(bits), value, 8)
      ensures data == PutByte(old(data), old(length), value)
      ensures old(Valid()) && old(length) % 4 == 0 ==> Valid()
    {
      ShlEight(bits, 0);
      if Valid() && length % 4 == 0 {
        ByteKept(data, length, bits, unused, value);
      }
      if length % 8 == 0 {
        data := data + [value];
      } else {
        WriteParts(value, length % 8);
      }
      length := length + 8;
      bits := Append(bits, value, 8);
    }

    // Divides value between the last byte and a new one.
    method WriteParts(value: Byte, l1: nat)
      requires 0 < l1 < 8 && data != []
      modifies this`data
      ensures PartsAreBytes(old(data[|data| - 1]), value, l1)
      ensures data == Divided(old(data), FirstPart(value, l1), SecondPart(value, l1))
    {
      PartsFit(data[|data| - 1], value, l1);
      var first, second := FirstPart(value, l1), SecondPart(value, l1);
      data := data[|data| - 1 := Or(data[|data| - 1], first)];
      data := data + [second];
    }

    method WriteUint2(value: Byte)
      requires Shaped()
      modifies this
      ensures Shaped() && length == old(length) + 2 && bits == Append(old(bits), value % 4, 2)
      ensures BitsPut(old(data), old(length), LowBits(value, 2), data)
      ensures old(Valid()) ==> Valid()
    {
      ghost var d, n := data, length;
      ghost var b1, b0 := value / 2 % 2 == 1, value % 2 == 1;
      Nibble(value);
      TwoBits(bits, value);
      NibbleBits(value);
      WriteBit(And(value, 0x2) != 0);
      ghost var e := data;
      WriteBit(And(value, 0x1) != 0);
      TwoPut(d, n, b1, e, b0, data);
    }

    method WriteUint4(value: Byte)
      requires Shaped()
      modifies this
      ensures Shaped() && length == old(length) + 4 && bits == Append(old(bits), value % 16, 4)
      ensures BitsPut(old(data), old(length), LowBits(value, 4), data)
      ensures old(Valid()) ==> Valid()
    {
      ghost var d, n := data, length;
      ghost var b3, b2 := value / 8 % 2 == 1, value / 4 % 2 == 1;
      Nibble(value);
      FourBits(bits, value);
      NibbleBits(value);
      WriteBit(And(value, 0x8) != 0);
      ghost var e := data;
      WriteBit(And(value, 0x4) != 0);
      TwoPut(d, n, b3, e, b2, data);
      e := data;
      WriteUint2(value);
      BitsPutTwice(d, n, [b3, b2], e, LowBits(value, 2), data);
    }

    method WriteUint16Be(value: nat)
      requires Shaped() && value < 0x1_0000
      modifies this
      ensures Shaped() && length == old(length) + 16 && bits == Append(old(bits), value, 16)
      ensures BytesPut(old(data), old(length), BeBytes(value, 2), data)
      ensures old(Valid()) && old(length) % 4 == 0 ==> Valid()
    {
      var high, low := value / 0x100, value % 0x100;
      StillAligned(length);
      ghost var d, n, b := data, length, bits;
      WriteByte(high);
      ghost var e := data;
      WriteByte(low);
      PairPut(d, n, high, e, low, data);
      BeHalves(d, n, b, high, e, low, data, 1, 2, value);
    }

    method WriteUint16Le(value: nat)
      requires Shaped() && value < 0x1_0000
      modifies this
      ensures Shaped() && length == old(length) + 16 && bits == Append(old(bits), Reversed(value, 2), 16)
      ensures BytesPut(old(data), old(length), LeBytes(value, 2), data)
      ensures old(Valid()) && old(length) % 4 == 0 ==> Valid()
    {
      var high, low := value / 0x100, value % 0x100;
      StillAligned(length);
      ghost var d, n, b := data, length, bits;
      WriteByte(low);
      ghost var e := data;
      WriteByte(high);
      PairPut(d, n, low, e, high, data);
      LeHalves(d, n, b, high, e, low, data, 1, 2, value);
    }

    // The three low bytes.
    method WriteUint24Be(value: nat)
      requires Shaped() && value < 0x1_0000_0000
      modifies this
      ensures Shaped() && length == old(length) + 24 && bits == Append(old(bits), value % 0x100_0000, 24)
      ensures BytesPut(old(data), old(length), BeBytes(value % 0x100_0000, 3), data)
      ensures old(Valid()) && old(length) % 4 == 0 ==> Valid()
    {
      var high, low := value / 0x1_0000 % 0x100, value % 0x1_0000;
      StillAligned(length);
      ghost var d, n, b := data, length, bits;
      WriteByte(high);
      ghost var e := data;
      WriteUint16Be(low);
      OnePut(d, n, high, e);
      BeThree(d, n, b, high, e, low, data, value);
    }

    method WriteUint24Le(value: nat)
      requires Shaped() && value < 0x1_0000_0000
      modifies this
      ensures Shaped() && length == old(length) + 24
      ensures bits == Append(old(bits), Reversed(value % 0x100_0000, 3), 24)
      ensures BytesPut(old(data), old(length), LeBytes(value % 0x100_0000, 3), data)
      ensures old(Valid()) && old(length) % 4 == 0 ==> Valid()
    {
      var high, low := value / 0x1_0000 % 0x100, value % 0x1_0000;
      StillAligned(length);
      ghost var d, n, b := data, length, bits;
      WriteUint16Le(low);
      ghost var e := data;
      WriteByte(high);
      OnePut(e, n + 16, high, data);
      LeThree(d, n, b, high, e, low, data, value);
    }

    // The four bytes from the highest to the lowest.
    method WriteUint32Be(value: nat)
      requires Shaped() && value < 0x1_0000_0000
      modifies this
      ensures Shaped() && length == old(length) + 32 && bits == Append(old(bits), value, 32)
      ensures BytesPut(old(data), old(length), BeBytes(value, 4), data)
      ensures old(Valid()) && old(length) % 4 == 0 ==> Valid()
    {
      var high, low := value / 0x1_0000, value % 0x1_0000;
      StillAligned(length);
      ghost var d, n, b := data, length, bits;
      WriteUint16Be(high);
      ghost var e := data;
      WriteUint16Be(low);
      BeHalves(d, n, b, high, e, low, data, 2, 4, value);
    }

    method WriteUint32Le(value: nat)
      requires Shaped() && value < 0x1_0000_0000
      modifies this
      ensures Shaped() && length == old(length) + 32 && bits == Append(old(bits), Reversed(value, 4), 32)
      ensures BytesPut(old(data), old(length), LeBytes(value, 4), data)
      ensures old(Valid()) && old(length) % 4 == 0 ==> Valid()
    {
      var high, low := value / 0x1_0000, value % 0x1_0000;
      StillAligned(length);
      ghost var d, n, b := data, length, bits;
      WriteUint16Le(low);
      ghost var e := data;
      WriteUint16Le(high);
      LeHalves(d, n, b, high, e, low, data, 2, 4, value);
    }

    method WriteUint64Be(value: nat)
      requires Shaped() && value < 0x1_0000_0000_0000_0000
      modifies this
      ensures Shaped() && length == old(length) + 64 && bits == Append(old(bits), value, 64)
      ensures BytesPut(old(data), old(length), BeBytes(value, 8), data)
      ensures old(Valid()) && old(length) % 4 == 0 ==> Valid()
    {
      var high, low := value / 0x1_0000_0000, value % 0x1_0000_0000;
      StillAligned(length);
      ghost var d, n, b := data, length, bits;
      WriteUint32Be(high);
      ghost var e := data;
      WriteUint32Be(low);
      BeHalves(d, n, b, high, e, low, data, 4, 8, value);
    }

    method WriteUint64Le(value: nat)
      requires Shaped() && value < 0x1_0000_0000_0000_0000
      modifies this
      ensures Shaped() && length == old(length) + 64 && bits == Append(old(bits), Reversed(value, 8), 64)
      ensures BytesPut(old(data), old(length), LeBytes(value, 8), data)
      ensures old(Valid()) && old(length) % 4 == 0 ==> Valid()
    {
      var high, low := value / 0x1_0000_0000, value % 0x1_0000_0000;
      StillAligned(length);
      ghost var d, n, b := data, length, bits;
      WriteUint32Le(low);
      ghost var e := data;
      WriteUint32Le(high);
      LeHalves(d, n, b, high, e, low, data, 4, 8, value);
    }

    method WriteBytes(bytes: seq<Byte>)
      requires Shaped() && length % 8 == 0
      modifies this
      ensures Shaped() && length == old(length) + 8 * |bytes| && bits == Append(old(bits), Num(bytes), 8 * |bytes|)
      ensures data == old(data) + bytes
      ensures old(Valid()) ==> Valid()
    {
      assert unused == 0;
      if Valid() {
        NumJoin(data, bytes);
        NumBelow(bytes);
        Below(bits, length, Num(bytes), 8 * |bytes|);
      }
      data := data + bytes;
      length := length + 8 * |bytes|;
      bits := Append(bits, Num(bytes), 8 * |bytes|);
    }

    method WriteString(s: seq<Byte>)
      requires Shaped() && length % 8 == 0
      modifies this
      ensures Shaped() && length == old(length) + 8 * |s| + 8 && bits == Append(old(bits), Num(s + [0]), 8 * |s| + 8)
      ensures data == old(data) + s + [0]
      ensures old(Valid()) ==> Valid()
    {
      NumPush(s, 0);
      StringNumber(bits, Num(s), Num(s + [0]), 8 * |s|, 8 * |s| + 8);
      Aligned(length, |s|);
      WriteBytes(s);
      WriteByte(0);
    }

    method WriteMasked(value: nat, mul: nat, ghost d: seq<Byte>, ghost p: nat, ghost before: nat, ghost done: seq<bool>)
      returns (ghost more: seq<bool>)
      requires Shaped() && length == p + |done| && bits == Appended(before, done) && BitsPut(d, p, done, data)
      modifies this
      ensures Shaped() && length == p + |more| && bits == Appended(before, more) && BitsPut(d, p, more, data)
      ensures more == done + [And(value, mul) != 0] && (old(Valid()) ==> Valid())
    {
      ghost var e := data;
      more := done + [And(value, mul) != 0];
      WriteBit(And(value, mul) != 0);
      OneMorePut(d, p, done, And(value, mul) != 0, e, data);
      AppendedMore(before, done, And(value, mul) != 0);
    }

    // Writes the n low bits of value. The mask is made in the type int; from n = 32 on that
    // is not enough for it, and what comes of it is the parameter overflow (see WrittenExactly).
    method WriteNBits(value: nat, n: nat, overflow: IntMask) returns (ok: bool)
      requires Shaped()
      modifies this
      ensures Shaped() && (ok <==> 0 < n <= 64) && length == old(length) + (if ok then n else 0)
      ensures ok ==> var bs := MaskBits(value, TopMask(n, overflow), n);
        bits == Appended(old(bits), bs) && BitsPut(old(data), old(length), bs, data)
      ensures ok && n <= 31 ==> bits == Append(old(bits), Low(value, n), n)
      ensures !ok ==> bits == old(bits) && data == old(data)
      ensures old(Valid()) ==> Valid()
    {
      if n == 0 || n > 64 {
        return false;
      }
      var mul := TopMask(n, overflow);
      ghost var before, d, p, done: seq<bool>, all := bits, data, length, [], MaskBits(value, mul, n);
      NoBits(d, p);
      assert done + all == all;
      for i := 0 to n
        invariant Shaped() && length == p + i && (old(Valid()) ==> Valid())
        invariant |done| == i && done + MaskBits(value, mul, n - i) == all
        invariant bits == Appended(before, done) && BitsPut(d, p, done, data)
      {
        Assoc(done, [And(value, mul) != 0], MaskBits(value, mul / 2, n - i - 1));
        done := WriteMasked(value, mul, d, p, before, done);
        mul := mul / 2;
      }
      assert done + [] == done;
      ok := true;
      if n <= 31 {
        MaskLow(before, value, n);
      }
    }
  }

  // The mask for the highest of n bits.
  function TopMask(n: nat, overflow: nat): nat
    requires n > 0
  {
    if n <= 31 then Pow2(n - 1) else overflow
  }

  // The bits picked by a mask and those made from it by shifting it right.
  function MaskBits(value: nat, mul: nat, n: nat): seq<bool> {
    if n == 0 then [] else [And(value, mul) != 0] + MaskBits(value, mul / 2, n - 1)
  }

  // The number b with more bits.
  function Appended(b: nat, bs: seq<bool>): nat
    decreases |bs|
  {
    if bs == [] then b else Appended(2 * b + (if bs[0] then 1 else 0), bs[1..])
  }

  lemma {:induction false} AppendedMore(b: nat, bs: seq<bool>, bit: bool)
    ensures Appended(b, bs + [bit]) == 2 * Appended(b, bs) + if bit then 1 else 0
    decreases |bs|
  {
    if bs == [] {
      assert bs + [bit] == [bit] && [bit][1..] == [];
    } else {
      AppendedMore(2 * b + (if bs[0] then 1 else 0), bs[1..], bit);
      assert (bs + [bit])[1..] == bs[1..] + [bit];
    }
  }

  // The n low bits of a number, the highest first.
  function LowBits(v: nat, n: nat): (r: seq<bool>)
    ensures |r| == n
  {
    if n == 0 then [] else LowBits(v / 2, n - 1) + [v % 2 == 1]
  }

  lemma NibbleBits(v: Byte)
    ensures LowBits(v, 2) == [v / 2 % 2 == 1, v % 2 == 1] == [v / 2 % 2 == 1] + [v % 2 == 1]
    ensures LowBits(v, 4) == [v / 8 % 2 == 1, v / 4 % 2 == 1] + LowBits(v, 2)
  {
    assert v / 2 / 2 == v / 4 && v / 4 / 2 == v / 8;
    assert LowBits(v / 4, 2) == LowBits(v / 8, 1) + [v / 4 % 2 == 1] && LowBits(v / 8, 1) == [] + [v / 8 % 2 == 1];
    assert LowBits(v, 2) == LowBits(v / 2, 1) + [v % 2 == 1] && LowBits(v / 2, 1) == [] + [v / 2 % 2 == 1];
    assert LowBits(v, 4) == (LowBits(v / 4, 2) + [v / 2 % 2 == 1]) + [v % 2 == 1];
  }

  // With the right mask these are the n low bits of value.
  lemma MaskLow(b: nat, value: nat, n: nat)
    requires n > 0
    ensures Appended(b, MaskBits(value, Pow2(n - 1), n)) == Append(b, Low(value, n), n)
  {
    MaskLowBits(value, n);
    AppendLowBits(b, value, n);
  }

  // What an int becomes as an uint64_t: the masks that 1 << (n - 1) can give.
  type IntMask = m: int | 0 <= m < 0x8000_0000 || 0xFFFF_FFFF_8000_0000 <= m < 0x1_0000_0000_0000_0000 witness 0

  lemma {:induction false} AndSwap(a: nat, b: nat)
    ensures And(a, b) == And(b, a)
    decreases a
  {
    if a > 0 && b > 0 {
      AndSwap(a / 2, b / 2);
    }
  }

  // A mask looks at one bit of a number that has no other.
  lemma PickBit(mask: nat, j: nat)
    ensures And(Pow2(j), mask) != 0 <==> Shr(mask, j) % 2 == 1
  {
    AndOne(mask, j);
    AndSwap(mask, Pow2(j));
  }

  lemma {:induction false} MaskBitAt(value: nat, mul: nat, n: nat, i: nat)
    requires i < n
    ensures |MaskBits(value, mul, n)| == n && Shr(mul, i) >= 0
    ensures MaskBits(value, mul, n)[i] <==> And(value, Shr(mul, i)) != 0
    decreases n
  {
    if i > 0 {
      MaskBitAt(value, mul / 2, n - 1, i - 1);
    } else if n > 1 {
      MaskBitAt(value, mul / 2, n - 1, 0);
    }
  }

  lemma {:induction false} LowBitAt(v: nat, n: nat, i: nat)
    requires i < n
    ensures LowBits(v, n)[i] <==> Shr(v, n - 1 - i) % 2 == 1
    decreases n
  {
    if i < n - 1 {
      LowBitAt(v / 2, n - 1, i);
    }
  }

  // The n low bits say what the low part of a number is.
  lemma {:induction false} AppendLowBits(b: nat, v: nat, n: nat)
    ensures Appended(b, LowBits(v, n)) == Append(b, Low(v, n), n)
    decreases n
  {
    if n > 0 {
      AppendLowBits(b, v / 2, n - 1);
      AppendedMore(b, LowBits(v / 2, n - 1), v % 2 == 1);
    }
  }

  // Powers of two, bit by bit.
  lemma PowerBit(m: nat, j: nat)
    ensures Shr(Pow2(m), j) == if j <= m then Pow2(m - j) else 0
    ensures Shr(Pow2(m), j) % 2 == 1 <==> j == m
  {
    if j <= m {
      ShlTwice(1, m - j, j);
      ShrUnique(Pow2(m), j, Pow2(m - j), 0);
    } else {
      Pow2Grows(m, j);
      SmallShr(Pow2(m), j);
    }
  }

  // A number whose k low bits are all zero but for the bit m.
  lemma {:induction false} OneBitOnly(x: nat, k: nat, m: nat)
    requires forall j {:trigger Shr(x, j)} :: 0 <= j < k ==> (Shr(x, j) % 2 == 1 <==> j == m)
    ensures Low(x, k) == if m < k then Pow2(m) else 0
    decreases k
  {
    if k > 0 {
      OneBitOnly(x, k - 1, m);
      ShrStep(x, k - 1);
    }
  }

  // Every number of n bits comes out as it is.
  ghost predicate WritesFitting(mul: nat, n: nat) {
    forall value: nat :: value < Pow2(n) ==> MaskBits(value, mul, n) == LowBits(value, n)
  }

  // And so do the n low bits of every number of w bits.
  ghost predicate WritesLow(mul: nat, n: nat, w: nat) {
    forall value: nat :: value < Pow2(w) ==> MaskBits(value, mul, n) == LowBits(value, n)
  }

  // What a number of one bit says about the mask.
  lemma Witness(mul: nat, n: nat, i: nat, k: nat)
    requires i < n && MaskBits(Pow2(k), mul, n) == LowBits(Pow2(k), n)
    ensures Shr(mul, i + k) % 2 == 1 <==> k == n - 1 - i
  {
    MaskBitAt(Pow2(k), mul, n, i);
    LowBitAt(Pow2(k), n, i);
    PickBit(Shr(mul, i), k);
    ShrTwice(mul, i, k);
    PowerBit(k, n - 1 - i);
  }

  // The right mask, other bits being too high to matter.
  lemma RightMask(mul: nat, n: nat, value: nat)
    requires n > 0 && value < Pow2(n) && Low(mul, 2 * n - 1) == Pow2(n - 1)
    ensures MaskBits(value, mul, n) == LowBits(value, n)
  {
    MaskBitAt(value, mul, n, 0);
    forall i | 0 <= i < n ensures MaskBits(value, mul, n)[i] == LowBits(value, n)[i] {
      MaskBitAt(value, mul, n, i);
      LowBitAt(value, n, i);
      ShiftedMask(mul, n, i, n + i, 2 * n - 1);
      AndFitting(value, Shr(mul, i), n);
      AndOne(value, n - 1 - i);
    }
  }

  lemma ShiftedMask(mul: nat, n: nat, i: nat, k: nat, top: nat)
    requires i < n && k == n + i && k <= top == 2 * n - 1 && Low(mul, top) == Pow2(n - 1)
    ensures Shr(mul, i) >= 0 && Low(Shr(mul, i), n) == Pow2(n - 1 - i)
  {
    LowSplit(mul, n, i, k);
    LowSplit(mul, top - k, k, top);
    Pow2Grows(n - 1, k);
    Pow2Grows(n, k);
    SmallShr(Pow2(n - 1), k);
    PowerBit(n - 1, i);
  }

  // Bits of a mask above a number do not matter.
  lemma {:induction false} AndFitting(value: nat, mask: nat, n: nat)
    requires value < Pow2(n)
    ensures And(value, mask) == And(value, Low(mask, n))
    decreases n
  {
    if n > 0 {
      AndFitting(value / 2, mask / 2, n - 1);
    }
  }

  // Fitting numbers are written as they are exactly if the mask has, of the bits that come to look at
  // any, the right one only.
  lemma FittingExactly(mul: nat, n: nat)
    requires n > 0
    ensures WritesFitting(mul, n) <==> Low(mul, 2 * n - 1) == Pow2(n - 1)
  {
    if WritesFitting(mul, n) {
      forall j | 0 <= j < 2 * n - 1 ensures Shr(mul, j) % 2 == 1 <==> j == n - 1 {
        var i := if j < n then 0 else j - (n - 1);
        var k := j - i;
        Pow2Grows(k, n);
        Witness(mul, n, i, k);
      }
      OneBitOnly(mul, 2 * n - 1, n - 1);
    }
    if Low(mul, 2 * n - 1) == Pow2(n - 1) {
      forall value: nat | value < Pow2(n) ensures MaskBits(value, mul, n) == LowBits(value, n) {
        RightMask(mul, n, value);
      }
    }
  }

  // The low bits of all numbers are written exactly with the right mask.
  lemma LowExactly(mul: nat, n: nat, w: nat)
    requires 0 < n <= w && mul < Pow2(w)
    ensures WritesLow(mul, n, w) <==> mul == Pow2(n - 1)
  {
    if WritesLow(mul, n, w) {
      forall j | 0 <= j < w ensures Shr(mul, j) % 2 == 1 <==> j == n - 1 {
        Pow2Grows(j, w);
        Witness(mul, n, 0, j);
      }
      OneBitOnly(mul, w, n - 1);
      SmallShr(mul, w);
    }
    if mul == Pow2(n - 1) {
      forall value: nat | value < Pow2(w) ensures MaskBits(value, mul, n) == LowBits(value, n) {
        MaskLowBits(value, n);
      }
    }
  }

  lemma MaskLowBits(value: nat, n: nat)
    requires n > 0
    ensures MaskBits(value, Pow2(n - 1), n) == LowBits(value, n)
  {
    MaskBitAt(value, Pow2(n - 1), n, 0);
    forall i | 0 <= i < n ensures MaskBits(value, Pow2(n - 1), n)[i] == LowBits(value, n)[i] {
      MaskBitAt(value, Pow2(n - 1), n, i);
      LowBitAt(value, n, i);
      PowerBit(n - 1, i);
      AndOne(value, n - 1 - i);
    }
  }

  // From 32 bits on no int is the right mask, not even for numbers that fit.
  lemma NoIntMask(m: IntMask, n: nat)
    requires 32 <= n <= 64
    ensures Low(m, 2 * n - 1) != Pow2(n - 1) && m != Pow2(n - 1)
  {
    var k := 2 * n - 1;
    MaskSizes();
    Pow2Grows(31, n - 1);
    Pow2Grows(n - 1, 63);
    Pow2Grows(63, k);
    if m < 0x8000_0000 {
      SmallShr(m, k);
    } else if n == 32 {
      ShrUnique(m, 63, 1, m - Pow2(63));
    } else {
      Pow2Grows(64, k);
      SmallShr(m, k);
    }
  }

  lemma MaskSizes()
    ensures Pow2(31) == 0x8000_0000 && Pow2(63) == 0x8000_0000_0000_0000 && Pow2(64) == 0x1_0000_0000_0000_0000
  {
    Words(1);
    assert Pow2(32) == 2 * Pow2(31) && Pow2(64) == 2 * Pow2(63);
  }

  // So n bits of a number are written as they should be, for all numbers of 64 bits and also for just
  // those of n bits, exactly if n is at most 31.
  lemma WrittenExactly(n: nat, overflow: IntMask)
    requires 0 < n <= 64
    ensures WritesLow(TopMask(n, overflow), n, 64) <==> n <= 31
    ensures WritesFitting(TopMask(n, overflow), n) <==> n <= 31
  {
    var mul := TopMask(n, overflow);
    MaskSizes();
    Pow2Grows(n - 1, 64);
    LowExactly(mul, n, 64);
    FittingExactly(mul, n);
    if n <= 31 {
      Pow2Grows(n - 1, 2 * n - 1);
      SmallShr(mul, 2 * n - 1);
    } else {
      NoIntMask(overflow, n);
    }
  }

  // A number that fits 32 bits and is not written as it is, with 1 << 31 as it is usually made: a
  // second bit comes out set.
  lemma MaskFails()
    ensures 0x8000_0000 < Pow2(32)
    ensures MaskBits(0x8000_0000, TopMask(32, 0xFFFF_FFFF_8000_0000), 32)[1] && !LowBits(0x8000_0000, 32)[1]
  {
    var mask, n := 0xFFFF_FFFF_8000_0000, 32;
    MaskSizes();
    MaskFailsAt(mask, n, Pow2(31));
  }

  lemma MaskFailsAt(mask: nat, n: nat, v: nat)
    requires n == 32 && v == Pow2(31) && mask == Pow2(64) - Pow2(31)
    ensures |MaskBits(v, mask, n)| == n && MaskBits(v, mask, n)[1] && !LowBits(v, n)[1]
  {
    MaskSizes();
    MaskBitAt(v, mask, n, 1);
    LowBitAt(v, n, 1);
    PickBit(Shr(mask, 1), 31);
    ShrTwice(mask, 1, 31);
    Words(0xFFFF_FFFF);
    ShrUnique(mask, 32, 0xFFFF_FFFF, 0x8000_0000);
    PowerBit(31, 30);
  }

  // ---------- what becomes of the bytes ----------

  // The next bit goes to its place in the last byte, or in a new one.
  function PutBit(d: seq<Byte>, n: nat, bit: bool): (r: seq<Byte>)
    requires |d| == (n + 7) / 8
    ensures |r| == (n + 8) / 8
  {
    var e: seq<Byte> := if n % 8 == 0 then d + [0] else d;
    BitFits(e[|e| - 1], 7 - n % 8);
    if bit then e[|e| - 1 := Or(e[|e| - 1], Pow2(7 - n % 8))] else e
  }

  lemma LastIndex(n: nat, u: nat, size: nat)
    requires u < 8 && 8 * size == n + u
    ensures size == (n + 7) / 8 && n / 8 == if n % 8 == 0 then size else size - 1
  {
  }

  lemma BitFits(x: Byte, k: nat)
    requires k < 8
    ensures 0 <= Or(x, Pow2(k)) < 256
  {
    Small();
    Pow2Grows(k, 8);
    OrBelow(x, Pow2(k), 8);
  }

  // The bits bs, put one after the other, make r of d.
  ghost predicate BitsPut(d: seq<Byte>, n: nat, bs: seq<bool>, r: seq<Byte>) {
    exists steps: seq<seq<Byte>> :: IsBitRun(steps, d, n, bs, r)
  }

  ghost predicate IsBitRun(steps: seq<seq<Byte>>, d: seq<Byte>, n: nat, bs: seq<bool>, r: seq<Byte>) {
    && |steps| == |bs| + 1 && steps[0] == d && steps[|bs|] == r
    && forall i {:trigger bs[i]} :: 0 <= i < |bs| ==> |steps[i]| == (n + i + 7) / 8 && steps[i + 1] == PutBit(steps[i], n + i, bs[i])
  }

  lemma NoBits(d: seq<Byte>, n: nat)
    ensures BitsPut(d, n, [], d)
  {
    assert IsBitRun([d], d, n, [], d);
  }

  lemma OneMorePut(d: seq<Byte>, n: nat, bs: seq<bool>, bit: bool, e: seq<Byte>, r: seq<Byte>)
    requires BitsPut(d, n, bs, e) && |e| == (n + |bs| + 7) / 8 && r == PutBit(e, n + |bs|, bit)
    ensures BitsPut(d, n, bs + [bit], r)
  {
    var steps :| IsBitRun(steps, d, n, bs, e);
    var all, longer := bs + [bit], steps + [r];
    forall i | 0 <= i < |all| ensures |longer[i]| == (n + i + 7) / 8 && longer[i + 1] == PutBit(longer[i], n + i, all[i]) {
      if i < |bs| {
        assert all[i] == bs[i];
      }
    }
    assert IsBitRun(longer, d, n, all, r);
  }

  lemma TwoPut(d: seq<Byte>, n: nat, a: bool, e: seq<Byte>, b: bool, r: seq<Byte>)
    requires |d| == (n + 7) / 8 && e == PutBit(d, n, a) && r == PutBit(e, n + 1, b)
    ensures BitsPut(d, n, [a, b], r)
  {
    assert IsBitRun([d, e, r], d, n, [a, b], r);
  }

  lemma BitsPutTwice(d: seq<Byte>, n: nat, a: seq<bool>, e: seq<Byte>, b: seq<bool>, r: seq<Byte>)
    requires BitsPut(d, n, a, e) && BitsPut(e, n + |a|, b, r)
    ensures BitsPut(d, n, a + b, r)
  {
    var s :| IsBitRun(s, d, n, a, e);
    var t :| IsBitRun(t, e, n + |a|, b, r);
    var all, steps := a + b, s + t[1..];
    forall i | 0 <= i < |all| ensures |steps[i]| == (n + i + 7) / 8 && steps[i + 1] == PutBit(steps[i], n + i, all[i]) {
      if i < |a| {
        assert all[i] == a[i];
      } else {
        assert all[i] == b[i - |a|] && steps[i] == t[i - |a|];
      }
    }
    assert IsBitRun(steps, d, n, all, r);
  }

  // A byte is appended where the last one is full, and divided elsewhere.
  function PutByte(d: seq<Byte>, n: nat, v: Byte): (r: seq<Byte>)
    requires |d| == (n + 7) / 8
    ensures |r| == |d| + 1
  {
    if n % 8 == 0 then d + [v]
    else
      PartsFit(d[|d| - 1], v, n % 8);
      Divided(d, FirstPart(v, n % 8), SecondPart(v, n % 8))
  }

  // The bytes bs, put one after the other, make r of d.
  ghost predicate BytesPut(d: seq<Byte>, n: nat, bs: seq<Byte>, r: seq<Byte>) {
    exists steps: seq<seq<Byte>> :: IsByteRun(steps, d, n, bs, r)
  }

  ghost predicate IsByteRun(steps: seq<seq<Byte>>, d: seq<Byte>, n: nat, bs: seq<Byte>, r: seq<Byte>) {
    && |steps| == |bs| + 1 && steps[0] == d && steps[|bs|] == r
    && forall i {:trigger bs[i]} :: 0 <= i < |bs| ==>
      IsByteStep(steps, n, bs, i)
  }

  predicate IsByteStep(steps: seq<seq<Byte>>, n: nat, bs: seq<Byte>, i: nat)
    requires i < |bs| && |steps| == |bs| + 1
  {
    |steps[i]| == (n + 8 * i + 7) / 8 && steps[i + 1] == PutByte(steps[i], n + 8 * i, bs[i])
  }

  lemma JoinStep(s: seq<seq<Byte>>, t: seq<seq<Byte>>, d: seq<Byte>, n: nat, a: seq<Byte>, e: seq<Byte>,
                 b: seq<Byte>, r: seq<Byte>, i: nat)
    requires IsByteRun(s, d, n, a, e) && IsByteRun(t, e, n + 8 * |a|, b, r) && i < |a + b|
    ensures IsByteStep(s + t[1..], n, a + b, i)
  {
    var steps, k := s + t[1..], i - |a|;
    if i < |a| {
      assert (a + b)[i] == a[i] && IsByteStep(s, n, a, i);
    } else {
      assert (a + b)[i] == b[k] && IsByteStep(t, n + 8 * |a|, b, k);
      assert steps[i] == t[k] && steps[i + 1] == t[k + 1];
      assert n + 8 * |a| + 8 * k == n + 8 * i;
    }
  }

  lemma OnePut(d: seq<Byte>, n: nat, v: Byte, r: seq<Byte>)
    requires |d| == (n + 7) / 8 && r == PutByte(d, n, v)
    ensures BytesPut(d, n, BeBytes(v, 1), r) && BytesPut(d, n, LeBytes(v, 1), r) && Reversed(v, 1) == v
  {
    ReversedByte(v);
    assert BeBytes(v, 1) == [v] == LeBytes(v, 1);
    assert IsByteStep([d, r], n, [v], 0);
    assert IsByteRun([d, r], d, n, [v], r);
  }

  lemma PairPut(d: seq<Byte>, n: nat, v: Byte, e: seq<Byte>, w: Byte, r: seq<Byte>)
    requires |d| == (n + 7) / 8 && e == PutByte(d, n, v) && r == PutByte(e, n + 8, w)
    ensures BytesPut(d, n, BeBytes(v, 1), e) && BytesPut(d, n, LeBytes(v, 1), e) && Reversed(v, 1) == v
    ensures BytesPut(e, n + 8, BeBytes(w, 1), r) && BytesPut(e, n + 8, LeBytes(w, 1), r) && Reversed(w, 1) == w
  {
    OnePut(d, n, v, e);
    OnePut(e, n + 8, w, r);
  }

  lemma BytesPutTwice(d: seq<Byte>, n: nat, a: seq<Byte>, e: seq<Byte>, b: seq<Byte>, r: seq<Byte>)
    requires BytesPut(d, n, a, e) && BytesPut(e, n + 8 * |a|, b, r)
    ensures BytesPut(d, n, a + b, r)
  {
    var s :| IsByteRun(s, d, n, a, e);
    var t :| IsByteRun(t, e, n + 8 * |a|, b, r);
    var steps := s + t[1..];
    forall i | 0 <= i < |a + b| ensures IsByteStep(steps, n, a + b, i) {
      JoinStep(s, t, d, n, a, e, b, r, i);
    }
    assert IsByteRun(steps, d, n, a + b, r);
  }

  // Nothing else can be made of the same bytes, and where the last byte is full they are just appended.
  lemma BytesPutUnique(d: seq<Byte>, n: nat, bs: seq<Byte>, r: seq<Byte>, r': seq<Byte>)
    requires BytesPut(d, n, bs, r) && BytesPut(d, n, bs, r')
    ensures r == r' && (n % 8 == 0 ==> r == d + bs)
  {
    var s :| IsByteRun(s, d, n, bs, r);
    var t :| IsByteRun(t, d, n, bs, r');
    RunUnique(s, t, d, n, bs, |bs|, r, r');
    if n % 8 == 0 {
      WholeRun(s, d, n, bs, |bs|, r);
      assert bs[..|bs|] == bs;
    }
  }

  lemma {:induction false} RunUnique(s: seq<seq<Byte>>, t: seq<seq<Byte>>, d: seq<Byte>, n: nat, bs: seq<Byte>,
                                     i: nat, r: seq<Byte>, r': seq<Byte>)
    requires IsByteRun(s, d, n, bs, r) && IsByteRun(t, d, n, bs, r') && i <= |bs|
    ensures s[i] == t[i]
  {
    if i > 0 {
      var k := i - 1;
      RunUnique(s, t, d, n, bs, k, r, r');
      var v := bs[k];
      assert IsByteStep(s, n, bs, k) && IsByteStep(t, n, bs, k);
    }
  }

  lemma {:induction false} WholeRun(s: seq<seq<Byte>>, d: seq<Byte>, n: nat, bs: seq<Byte>, i: nat, r: seq<Byte>)
    requires IsByteRun(s, d, n, bs, r) && i <= |bs| && n % 8 == 0
    ensures s[i] == d + bs[..i]
  {
    if i == 0 {
      assert d + bs[..0] == d;
    } else {
      var k := i - 1;
      WholeRun(s, d, n, bs, k, r);
      var v := bs[k];
      assert IsByteStep(s, n, bs, k);
      PutWhole(s[k], n, k, v);
      FrontMore(d, bs, k);
    }
  }

  lemma FrontMore(d: seq<Byte>, bs: seq<Byte>, k: nat)
    requires k < |bs|
    ensures (d + bs[..k]) + [bs[k]] == d + bs[..k + 1]
  {
    assert bs[..k + 1] == bs[..k] + [bs[k]];
    Assoc(d, bs[..k], [bs[k]]);
  }

  lemma PutWhole(d: seq<Byte>, n: nat, i: nat, v: Byte)
    requires n % 8 == 0 && |d| == (n + 8 * i + 7) / 8
    ensures PutByte(d, n + 8 * i, v) == d + [v]
  {
    var q := n / 8 + i;
    assert n + 8 * i == 8 * q;
    EightTimes(q);
  }

  lemma EightTimes(x: nat)
    ensures 8 * x % 8 == 0
  {
  }

  // The k low bytes of a number, the highest first, and the lowest first.
  function BeBytes(v: nat, k: nat): (r: seq<Byte>)
    ensures |r| == k
  {
    if k == 0 then [] else BeBytes(v / 256, k - 1) + [v % 256]
  }

  function LeBytes(v: nat, k: nat): (r: seq<Byte>)
    ensures |r| == k
  {
    if k == 0 then [] else [v % 256] + LeBytes(v / 256, k - 1)
  }

  // Byte by byte: the byte i of the number, counted from its low end, comes at i from the end, or at i.
  lemma {:induction false} ByteOrder(v: nat, k: nat, i: nat)
    requires i < k
    ensures BeBytes(v, k)[k - 1 - i] == LeBytes(v, k)[i] == Shr(v, 8 * i) % 256
  {
    if i > 0 {
      ByteOrder(v / 256, k - 1, i - 1);
      ShrByte(v, i);
    }
  }

  // As numbers, the bytes in the one order are the low part of v, and in the other that reversed.
  lemma {:induction false} BeAsNumber(v: nat, k: nat)
    ensures Num(BeBytes(v, k)) == Low(v, 8 * k)
    decreases k
  {
    if k > 0 {
      BeAsNumber(v / 256, k - 1);
      NumPush(BeBytes(v / 256, k - 1), v % 256);
      ByteMore(v, 8 * (k - 1));
    }
  }

  lemma {:induction false} LeAsNumber(v: nat, k: nat)
    ensures Num(LeBytes(v, k)) == Reversed(v, k)
    decreases k
  {
    if k > 0 {
      LeAsNumber(v / 256, k - 1);
      NumFront(v % 256, LeBytes(v / 256, k - 1));
    }
  }

  lemma NumFront(b: Byte, rest: seq<Byte>)
    ensures Num([b] + rest) == Shl(b, 8 * |rest|) + Num(rest)
  {
    NumJoin([b], rest);
    assert [b][..0] == [] && Num([b]) == b;
  }

  lemma ByteMore(v: nat, n: nat)
    ensures Low(v, n + 8) == 256 * Low(v / 256, n) + v % 256
  {
    Small();
    ShrLow(v / 256, n);
    var q, r := Shr(v / 256, n), Low(v / 256, n);
    ShlEight(q, n);
    ShlEight(1, n);
    ShrUnique(v, n + 8, q, 256 * r + v % 256);
  }

  lemma ShrByte(v: nat, i: nat)
    requires i > 0
    ensures Shr(v, 8 * i) == Shr(v / 256, 8 * (i - 1))
  {
    ShrTwice(v, 8, 8 * (i - 1));
    Small();
    ShrIsDiv(v, 8);
  }

  lemma {:induction false} BeBytesJoin(v: nat, high: nat, low: nat, j: nat, k: nat)
    requires v == Shl(high, 8 * k) + low && low < Pow2(8 * k)
    ensures BeBytes(v, j + k) == BeBytes(high, j) + BeBytes(low, k)
    decreases k
  {
    if k == 0 {
      assert BeBytes(high, j) + [] == BeBytes(high, j);
    } else {
      var n := 8 * (k - 1);
      ShlEight(high, n);
      ShlEight(1, n);
      SplitByte(v, Shl(high, n), low);
      BeBytesJoin(v / 256, high, low / 256, j, k - 1);
      Assoc(BeBytes(high, j), BeBytes(low / 256, k - 1), [low % 256]);
    }
  }

  lemma {:induction false} LeBytesJoin(v: nat, high: nat, low: nat, j: nat, k: nat)
    requires v == Shl(high, 8 * k) + low && low < Pow2(8 * k)
    ensures LeBytes(v, j + k) == LeBytes(low, k) + LeBytes(high, j)
    decreases k
  {
    if k == 0 {
      assert [] + LeBytes(high, j) == LeBytes(high, j);
    } else {
      var n := 8 * (k - 1);
      ShlEight(high, n);
      ShlEight(1, n);
      SplitByte(v, Shl(high, n), low);
      LeBytesJoin(v / 256, high, low / 256, j, k - 1);
      Assoc([low % 256], LeBytes(low / 256, k - 1), LeBytes(high, j));
    }
  }

  // A number of e bytes, j high ones and k low ones, is written in two parts.
  lemma JoinBe(d: seq<Byte>, n: nat, b: nat, high: nat, m: seq<Byte>, low: nat, r: seq<Byte>, j: nat, k: nat, e: nat, v: nat)
    requires e == j + k && v == Shl(high, 8 * k) + low && low < Pow2(8 * k)
    requires BytesPut(d, n, BeBytes(high, j), m) && BytesPut(m, n + 8 * j, BeBytes(low, k), r)
    ensures BytesPut(d, n, BeBytes(v, e), r)
    ensures Append(Append(b, high, 8 * j), low, 8 * k) == Append(b, v, 8 * e)
  {
    BeBytesJoin(v, high, low, j, k);
    BytesPutTwice(d, n, BeBytes(high, j), m, BeBytes(low, k), r);
    AppendParts(b, high, low, j, k, e, v);
  }

  lemma AppendParts(b: nat, high: nat, low: nat, j: nat, k: nat, e: nat, v: nat)
    requires e == j + k && v == Shl(high, 8 * k) + low
    ensures Append(Append(b, high, 8 * j), low, 8 * k) == Append(b, v, 8 * e)
  {
    AppendTwice(b, high, 8 * j, low, 8 * k, v, 8 * e);
  }

  lemma JoinLe(d: seq<Byte>, n: nat, b: nat, high: nat, m: seq<Byte>, low: nat, r: seq<Byte>, j: nat, k: nat, e: nat, v: nat)
    requires e == j + k && v == Shl(high, 8 * k) + low && low < Pow2(8 * k)
    requires BytesPut(d, n, LeBytes(low, k), m) && BytesPut(m, n + 8 * k, LeBytes(high, j), r)
    ensures BytesPut(d, n, LeBytes(v, e), r)
    ensures Append(Append(b, Reversed(low, k), 8 * k), Reversed(high, j), 8 * j) == Append(b, Reversed(v, e), 8 * e)
  {
    LeBytesJoin(v, high, low, j, k);
    assert BytesPut(d, n, LeBytes(v, e), r) by {
      BytesPutTwice(d, n, LeBytes(low, k), m, LeBytes(high, j), r);
    }
    AppendReversed(b, high, low, j, k, e, v);
  }

  lemma AppendReversed(b: nat, high: nat, low: nat, j: nat, k: nat, e: nat, v: nat)
    requires e == j + k && v == Shl(high, 8 * k) + low && low < Pow2(8 * k)
    ensures Append(Append(b, Reversed(low, k), 8 * k), Reversed(high, j), 8 * j) == Append(b, Reversed(v, e), 8 * e)
  {
    ReversedJoin(v, low, high, k, j);
    AppendTwice(b, Reversed(low, k), 8 * k, Reversed(high, j), 8 * j, Reversed(v, e), 8 * e);
  }

  lemma BeHalves(d: seq<Byte>, n: nat, b: nat, high: nat, m: seq<Byte>, low: nat, r: seq<Byte>, k: nat, e: nat, v: nat)
    requires k in {1, 2, 4} && e == 2 * k && low < WordSize(k) && v == WordSize(k) * high + low
    requires BytesPut(d, n, BeBytes(high, k), m) && BytesPut(m, n + 8 * k, BeBytes(low, k), r)
    ensures BytesPut(d, n, BeBytes(v, e), r)
    ensures Append(Append(b, high, 8 * k), low, 8 * k) == Append(b, v, 8 * e)
  {
    Halves(v, high, low, k);
    JoinBe(d, n, b, high, m, low, r, k, k, e, v);
  }

  lemma LeHalves(d: seq<Byte>, n: nat, b: nat, high: nat, m: seq<Byte>, low: nat, r: seq<Byte>, k: nat, e: nat, v: nat)
    requires k in {1, 2, 4} && e == 2 * k && low < WordSize(k) && v == WordSize(k) * high + low
    requires BytesPut(d, n, LeBytes(low, k), m) && BytesPut(m, n + 8 * k, LeBytes(high, k), r)
    ensures BytesPut(d, n, LeBytes(v, e), r)
    ensures Append(Append(b, Reversed(low, k), 8 * k), Reversed(high, k), 8 * k) == Append(b, Reversed(v, e), 8 * e)
  {
    Halves(v, high, low, k);
    JoinLe(d, n, b, high, m, low, r, k, k, e, v);
  }

  lemma BeThree(d: seq<Byte>, n: nat, b: nat, high: nat, m: seq<Byte>, low: nat, r: seq<Byte>, value: nat)
    requires high == value / 0x1_0000 % 0x100 && low == value % 0x1_0000
    requires BytesPut(d, n, BeBytes(high, 1), m) && BytesPut(m, n + 8, BeBytes(low, 2), r)
    ensures BytesPut(d, n, BeBytes(value % 0x100_0000, 3), r)
    ensures Append(Append(b, high, 8), low, 16) == Append(b, value % 0x100_0000, 24)
  {
    var v := value % 0x100_0000;
    ThreeBytes(value, v, high, low);
    JoinBe(d, n, b, high, m, low, r, 1, 2, 3, v);
  }

  lemma LeThree(d: seq<Byte>, n: nat, b: nat, high: nat, m: seq<Byte>, low: nat, r: seq<Byte>, value: nat)
    requires high == value / 0x1_0000 % 0x100 && low == value % 0x1_0000
    requires BytesPut(d, n, LeBytes(low, 2), m) && BytesPut(m, n + 16, LeBytes(high, 1), r)
    ensures BytesPut(d, n, LeBytes(value % 0x100_0000, 3), r)
    ensures Append(Append(b, Reversed(low, 2), 16), Reversed(high, 1), 8) == Append(b, Reversed(value % 0x100_0000, 3), 24)
  {
    var v := value % 0x100_0000;
    ThreeBytes(value, v, high, low);
    JoinLe(d, n, b, high, m, low, r, 1, 2, 3, v);
  }

  // Halves of numbers of two, four and eight bytes.
  lemma Halves(v: nat, high: nat, low: nat, k: nat)
    requires k in {1, 2, 4} && low < WordSize(k) && v == WordSize(k) * high + low
    ensures v == Shl(high, 8 * k) + low && low < Pow2(8 * k)
  {
    Small();
    ShlEight(high, 0);
    Words(high);
  }

  function WordSize(k: nat): nat {
    if k == 1 then 0x100 else if k == 2 then 0x1_0000 else 0x1_0000_0000
  }

  // A bit after bits that are held is held.
  lemma BitKept(d: seq<Byte>, n: nat, bits: nat, u: nat, bit: bool)
    requires u < 8 && Holds(d, n, bits, u)
    ensures |d| == (n + 7) / 8
    ensures Holds(PutBit(d, n, bit), n + 1, 2 * bits + (if bit then 1 else 0), if n % 8 == 0 then 7 else u - 1)
  {
    var e, k := d, u;
    if n % 8 == 0 {
      NumPush(d, 0);
      ShlEight(bits, 0);
      e, k := d + [0], 8;
    }
    RoomBelow(e, n, bits, k);
    BitWritten(e, n, bits, k, bit);
  }

  // So is a byte, at every fourth bit.
  lemma ByteKept(d: seq<Byte>, n: nat, bits: nat, u: nat, v: Byte)
    requires u < 8 && Holds(d, n, bits, u) && n % 4 == 0
    ensures |d| == (n + 7) / 8 && Holds(PutByte(d, n, v), n + 8, 256 * bits + v, u)
  {
    Offset(d, n, bits, u);
    if n % 8 == 0 {
      WholeByte(d, n, bits, v);
    } else {
      PartsResult(d, n, bits, v, u, 4);
    }
  }

  lemma Aligned(n: nat, k: nat)
    requires n % 8 == 0
    ensures (n + 8 * k) % 4 == 0
  {
    var q := n / 8 + k;
    assert n + 8 * k == 8 * q;
    FourTimes(q + q);
  }

  lemma FourTimes(x: nat)
    ensures 4 * x % 4 == 0
  {
  }

  lemma StringNumber(bits: nat, n: nat, z: nat, m: nat, k: nat)
    requires z == 256 * n && k == m + 8
    ensures Append(Append(bits, n, m), 0, 8) == Append(bits, z, k)
  {
    ShlEight(n, 0);
    AppendTwice(bits, n, m, 0, 8, z, k);
  }

  lemma StillAligned(n: nat)
    ensures n % 4 == (n + 8) % 4 == (n + 16) % 4 == (n + 32) % 4
  {
  }

  // The number b with n more bits, those of v.
  function Append(b: nat, v: nat, n: nat): (r: nat) {
    Shl(b, n) + v
  }

  // Two numbers appended are one, z.
  lemma AppendTwice(b: nat, v: nat, m: nat, w: nat, n: nat, z: nat, k: nat)
    requires k == m + n && z == Shl(v, n) + w
    ensures Append(Append(b, v, m), w, n) == Append(b, z, k)
  {
    ShlTwice(b, m, n);
    ShlAdd(Shl(b, m), v, n);
  }

  lemma TwoBits(b: nat, value: Byte)
    ensures Append(b, value % 4, 2) == 2 * (2 * b + value / 2 % 2) + value % 2
  {
    FourPlaces(b);
  }

  lemma FourBits(b: nat, value: Byte)
    ensures Append(b, value % 16, 4) == Append(2 * (2 * b + value / 8 % 2) + value / 4 % 2, value % 4, 2)
  {
    FourPlaces(b);
    FourPlaces(2 * (2 * b + value / 8 % 2) + value / 4 % 2);
    NibbleParts(value);
  }

  lemma NibbleParts(value: Byte)
    ensures value % 16 == 8 * (value / 8 % 2) + 4 * (value / 4 % 2) + value % 4
  {
    var a := value / 4;
    assert value == 4 * a + value % 4;
    assert a == 2 * (a / 2) + a % 2 && a / 2 == value / 8;
    assert a / 2 == 2 * (a / 4) + a / 2 % 2;
    assert value == 16 * (a / 4) + (8 * (a / 2 % 2) + 4 * (a % 2) + value % 4);
  }

  // The bits of a number of four bits.
  lemma Nibble(value: Byte)
    ensures And(value, 8) != 0 <==> value / 8 % 2 == 1
    ensures And(value, 4) != 0 <==> value / 4 % 2 == 1
    ensures And(value, 2) != 0 <==> value / 2 % 2 == 1
    ensures And(value, 1) != 0 <==> value % 2 == 1
  {
    BitOf(value, 8);
    BitOf(value, 4);
    BitOf(value, 2);
    BitOf(value, 1);
  }

  lemma {:induction false} BitOf(value: nat, mask: nat)
    requires mask == 1 || mask == 2 || mask == 4 || mask == 8
    ensures And(value, mask) != 0 <==> value / mask % 2 == 1
    decreases mask
  {
    if mask > 1 {
      BitOf(value / 2, mask / 2);
    } else {
      assert And(value / 2, 0) == 0;
    }
  }

  // The k low bytes of a number in the opposite order.
  function Reversed(v: nat, k: nat): (r: nat)
    decreases k, v
  {
    if k == 0 then 0 else Shl(v % 256, 8 * (k - 1)) + Reversed(v / 256, k - 1)
  }

  lemma {:induction false} ReversedBelow(v: nat, k: nat)
    ensures Reversed(v, k) < Pow2(8 * k)
    decreases k
  {
    if k > 0 {
      ReversedBelow(v / 256, k - 1);
      Small();
      Below(v % 256, 8, Reversed(v / 256, k - 1), 8 * (k - 1));
    }
  }

  lemma SplitByte(v: nat, h: nat, low: nat)
    requires v == 256 * h + low
    ensures v % 256 == low % 256 && v / 256 == h + low / 256
  {
  }

  // A number of j + k bytes: the low ones come first.
  lemma {:induction false} ReversedJoin(v: nat, low: nat, high: nat, j: nat, k: nat)
    requires v == Shl(high, 8 * j) + low && low < Pow2(8 * j)
    ensures Reversed(v, j + k) == Shl(Reversed(low, j), 8 * k) + Reversed(high, k)
    decreases j
  {
    if j > 0 {
      var n := 8 * (j - 1);
      ShlEight(high, n);
      ShlEight(1, n);
      SplitByte(v, Shl(high, n), low);
      ReversedJoin(v / 256, low / 256, high, j - 1, k);
      ReversedMore(v, low, high, j, k);
    }
  }

  // One byte more at the low end.
  lemma ReversedMore(v: nat, low: nat, high: nat, j: nat, k: nat)
    requires j > 0 && v % 256 == low % 256
    requires Reversed(v / 256, j + k - 1) == Shl(Reversed(low / 256, j - 1), 8 * k) + Reversed(high, k)
    ensures Reversed(v, j + k) == Shl(Reversed(low, j), 8 * k) + Reversed(high, k)
  {
    JoinMore(low % 256, Reversed(low / 256, j - 1), Reversed(high, k), 8 * (j - 1), 8 * k, 8 * (j + k - 1));
  }

  lemma JoinMore(a: nat, low: nat, high: nat, n: nat, m: nat, k: nat)
    requires k == n + m
    ensures Shl(a, k) + (Shl(low, m) + high) == Shl(Shl(a, n) + low, m) + high
  {
    ShlTwice(a, n, m);
    ShlAdd(Shl(a, n), low, m);
  }

  lemma ReversedByte(v: nat)
    requires v < 256
    ensures Reversed(v, 1) == v
  {
  }

  lemma ReversedPair(high: Byte, low: Byte)
    ensures Reversed(0x100 * high + low, 2) == 0x100 * low + high
  {
    ShlEight(low, 0);
    ReversedByte(high);
    assert (0x100 * high + low) / 256 == high && (0x100 * high + low) % 256 == low;
    assert Reversed(0x100 * high + low, 2) == Shl(low, 8) + Reversed(high, 1);
  }

  // Reversing twice changes nothing.
  lemma {:induction false} ReversedTwice(v: nat, k: nat)
    requires v < Pow2(8 * k)
    ensures Reversed(Reversed(v, k), k) == v
    decreases k
  {
    if k > 0 {
      var a, rest, n := v % 256, Reversed(v / 256, k - 1), 8 * (k - 1);
      ShlEight(1, n);
      ReversedBelow(v / 256, k - 1);
      ReversedJoin(Reversed(v, k), rest, a, k - 1, 1);
      ReversedTwice(v / 256, k - 1);
      ReversedByte(a);
      ShlEight(v / 256, 0);
    }
  }

  // Powers and shifts of the widths of words.
  lemma Words(x: int)
    ensures Pow2(16) == 0x1_0000 && Pow2(24) == 0x100_0000 && Pow2(32) == 0x1_0000_0000
    ensures Pow2(64) == 0x1_0000_0000_0000_0000
    ensures Shl(x, 8) == 0x100 * x && Shl(x, 16) == 0x1_0000 * x && Shl(x, 32) == 0x1_0000_0000 * x
  {
    Eights(1);
    Eights(x);
  }

  // The three low bytes, one and two.
  lemma ThreeBytes(value: nat, v: nat, high: nat, low: nat)
    requires v == value % 0x100_0000 && high == value / 0x1_0000 % 0x100 && low == value % 0x1_0000
    ensures v == 0x1_0000 * high + low && v == Shl(high, 16) + low && high < 0x100 && low < Pow2(16)
  {
    Words(high);
  }

  lemma Eights(x: int)
    ensures Shl(x, 8) == 0x100 * x && Shl(x, 16) == 0x1_0000 * x && Shl(x, 24) == 0x100_0000 * x
    ensures Shl(x, 32) == 0x1_0000_0000 * x && Shl(x, 64) == 0x1_0000_0000_0000_0000 * x
  {
    ShlEight(x, 0);
    ShlEight(x, 8);
    ShlEight(x, 16);
    ShlEight(x, 24);
    ShlEight(x, 32);
    ShlEight(x, 40);
    ShlEight(x, 48);
    ShlEight(x, 56);
  }

  lemma Below(bits: nat, n: nat, more: nat, m: nat)
    requires bits < Pow2(n) && more < Pow2(m)
    ensures 0 <= Shl(bits, m) + more < Pow2(n + m)
  {
    ShlTwice(1, n, m);
    ShlOrder(bits + 1, Pow2(n), m);
    ShlAdd(bits, 1, m);
  }

  // The bytes d hold n bits, of value bits, and u unused ones.
  ghost predicate Holds(d: seq<Byte>, n: nat, bits: nat, u: nat) {
    bits < Pow2(n) && 8 * |d| == n + u && Num(d) == Shl(bits, u)
  }

  lemma Offset(d: seq<Byte>, n: nat, bits: nat, u: nat)
    requires u < 8 && Holds(d, n, bits, u)
    ensures if n % 8 == 0 then u == 0 else u == 8 - n % 8 && d != []
    ensures n % 8 != 0 && n % 4 == 0 ==> n % 8 == 4
  {
  }

  // The place for the next bit.
  lemma RoomBelow(d: seq<Byte>, n: nat, bits: nat, u: nat)
    requires 0 < u <= 8 && Holds(d, n, bits, u)
    ensures n / 8 == |d| - 1 && 7 - n % 8 == u - 1
    ensures Or(d[|d| - 1], Pow2(u - 1)) == d[|d| - 1] + Pow2(u - 1) < 256
  {
    FreeBit(d, bits, u);
  }

  // One more bit in the last byte.
  lemma BitWritten(d: seq<Byte>, n: nat, bits: nat, u: nat, value: bool)
    requires d != [] && 0 < u <= 8 && Holds(d, n, bits, u)
    requires Or(d[|d| - 1], Pow2(u - 1)) == d[|d| - 1] + Pow2(u - 1) < 256
    ensures Holds(if value then d[|d| - 1 := Or(d[|d| - 1], Pow2(u - 1))] else d, n + 1, 2 * bits + (if value then 1 else 0), u - 1)
  {
    NumLast(d, Or(d[|d| - 1], Pow2(u - 1)));
    OneMoreBit(bits, u - 1, if value then 1 else 0);
    OneMoreBit(bits, n, if value then 1 else 0);
  }

  lemma WholeByte(d: seq<Byte>, n: nat, bits: nat, v: Byte)
    requires Holds(d, n, bits, 0)
    ensures Holds(d + [v], n + 8, 256 * bits + v, 0)
  {
    NumPush(d, v);
    ShlEight(1, n);
  }

  predicate PartsAreBytes(last: Byte, v: Byte, l1: nat)
    requires 0 < l1 < 8
  {
    0 <= FirstPart(v, l1) < 256 && 0 <= SecondPart(v, l1) < 256 && 0 <= Or(last, FirstPart(v, l1)) < 256
  }

  // What becomes of the bytes at l1 bits into the last one.
  lemma PartsResult(d: seq<Byte>, n: nat, bits: nat, v: Byte, u: nat, l1: nat)
    requires d != [] && 0 < l1 < 8 && u + l1 == 8 && Holds(d, n, bits, u)
    ensures PartsAreBytes(d[|d| - 1], v, l1)
    ensures var d' := Divided(d, FirstPart(v, l1), SecondPart(v, l1));
      && (l1 == 4 ==> Holds(d', n + 8, 256 * bits + v, u))
      && (l1 != 4 && v == 1 ==> !Holds(d', n + 8, 256 * bits + v, u))
  {
    PartsFit(d[|d| - 1], v, l1);
    if l1 == 4 {
      MiddleByte(d, n, bits, v, u);
    } else if v == 1 {
      WrongElsewhere(Divided(d, FirstPart(v, l1), SecondPart(v, l1)), bits, u, l1);
    }
  }

  // The bytes hold every value as it is, exactly if the last byte was half full.
  lemma DividedExactly(d: seq<Byte>, n: nat, bits: nat, u: nat, l1: nat)
    requires d != [] && 0 < l1 < 8 && u + l1 == 8 && Holds(d, n, bits, u)
    ensures (forall v: Byte :: HoldsDivided(d, n, bits, v, u, l1)) <==> l1 == 4
  {
    PartsResult(d, n, bits, 1, u, l1);
    assert HoldsDivided(d, n, bits, 1, u, l1) <==> l1 == 4;
    forall v: Byte | l1 == 4 ensures HoldsDivided(d, n, bits, v, u, l1) {
      PartsResult(d, n, bits, v, u, l1);
    }
  }

  ghost predicate HoldsDivided(d: seq<Byte>, n: nat, bits: nat, v: Byte, u: nat, l1: nat)
    requires d != [] && 0 < l1 < 8
  {
    PartsAreBytes(d[|d| - 1], v, l1) && Holds(Divided(d, FirstPart(v, l1), SecondPart(v, l1)), n + 8, 256 * bits + v, u)
  }

  lemma PartsFit(last: Byte, v: Byte, l1: nat)
    requires 0 < l1 < 8
    ensures PartsAreBytes(last, v, l1)
  {
    Small();
    PartsMeaning(v, l1);
    OrBelow(last, FirstPart(v, l1), 8);
  }

  // In the middle of a byte both parts of v find their place.
  lemma MiddleByte(d: seq<Byte>, n: nat, bits: nat, v: Byte, u: nat)
    requires d != [] && u == 4 && Holds(d, n, bits, u)
    ensures 0 <= FirstPart(v, 4) < 256 && 0 <= SecondPart(v, 4) < 256 && 0 <= Or(d[|d| - 1], FirstPart(v, 4)) < 256
    ensures Holds(Divided(d, FirstPart(v, 4), SecondPart(v, 4)), n + 8, 256 * bits + v, u)
  {
    var last, first, second := d[|d| - 1], FirstPart(v, 4), SecondPart(v, 4);
    PartsFit(last, v, 4);
    PartsMeaning(v, 4);
    ShlEight(1, n);
    LastLow(d, bits, 4);
    MiddleParts(v, first);
    OrApart(last, first, 4);
    NumLast(d, Or(last, first));
    NumPush(d[|d| - 1 := Or(last, first)], second);
    MiddleNumber(bits, v, first);
  }

  // Elsewhere the byte 1 is not what the bytes hold then.
  lemma WrongElsewhere(d: seq<Byte>, bits: nat, u: nat, l1: nat)
    requires d != [] && 0 < u < 8 && u + l1 == 8 && u != 4 && d[|d| - 1] == SecondPart(1, l1)
    ensures Num(d) != Shl(256 * bits + 1, u)
  {
    PartsMeaning(1, l1);
    OneShifted(u);
    LowByte(d);
    LowOfOne(bits, u);
    if l1 < u {
      Pow2Grows(l1, u);
    } else {
      Pow2Grows(u, l1);
    }
  }

  // The low bits of the number are the last byte.
  lemma LowByte(d: seq<Byte>)
    requires d != []
    ensures Low(Num(d), 8) == d[|d| - 1]
  {
    var front, last := Num(d[..|d| - 1]), d[|d| - 1];
    ShlEight(front, 0);
    LowSame(Num(d), last, 8, front);
    Small();
    SmallShr(last, 8);
  }

  lemma LowOfOne(bits: nat, u: nat)
    requires u < 8
    ensures Low(Shl(256 * bits + 1, u), 8) == Pow2(u)
  {
    ShlEight(bits, 0);
    ShlTwice(bits, 8, u);
    ShlTwice(bits, u, 8);
    ShlAdd(256 * bits, 1, u);
    LowSame(Shl(256 * bits + 1, u), Pow2(u), 8, Shl(bits, u));
    Pow2Grows(u, 8);
    SmallShr(Pow2(u), 8);
  }

  // The last byte joined by the one part, followed by the other.
  function Divided(d: seq<Byte>, first: Byte, second: Byte): seq<Byte>
    requires d != [] && 0 <= Or(d[|d| - 1], first) < 256
  {
    d[|d| - 1 := Or(d[|d| - 1], first)] + [second]
  }

  lemma MiddleNumber(bits: nat, v: Byte, first: int)
    requires 16 * first + Low(v, 4) == v
    ensures 256 * (Shl(bits, 4) + first) + Shl(Low(v, 4), 4) == Shl(256 * bits + v, 4)
  {
    FourPlaces(bits);
    FourPlaces(256 * bits + v);
    FourPlaces(Low(v, 4));
  }

  lemma MiddleParts(v: Byte, first: Byte)
    requires first == Shr(v, 4)
    ensures 16 * first + Low(v, 4) == v && first < Pow2(4)
  {
    Small();
    ShrLow(v, 4);
    FourPlaces(first);
  }

  lemma FourPlaces(x: int)
    ensures Shl(x, 2) == 4 * x && Shl(x, 4) == 16 * x
  {
    assert Shl(x, 4) == 2 * Shl(x, 3) && Shl(x, 3) == 2 * Shl(x, 2) && Shl(x, 2) == 2 * Shl(x, 1) && Shl(x, 1) == 2 * x;
  }

  // The highest unused bit of the last byte can be set.
  lemma FreeBit(d: seq<Byte>, bits: nat, k: nat)
    requires d != [] && 0 < k <= 8 && Num(d) == Shl(bits, k)
    ensures Or(d[|d| - 1], Pow2(k - 1)) == d[|d| - 1] + Pow2(k - 1) < 256
  {
    LastLow(d, bits, k);
    FreeInByte(d[|d| - 1], k);
  }

  // The unused bits of the last byte are zero.
  lemma LastLow(d: seq<Byte>, bits: nat, k: nat)
    requires d != [] && k <= 8 && Num(d) == Shl(bits, k)
    ensures Low(d[|d| - 1], k) == 0
  {
    var front, last := Num(d[..|d| - 1]), d[|d| - 1];
    ShrUnique(Num(d), k, bits, 0);
    ShlEight(front, 0);
    ShlTwice(front, 8 - k, k);
    LowSame(Num(d), last, k, Shl(front, 8 - k));
  }

  lemma FreeInByte(x: Byte, k: nat)
    requires 0 < k <= 8 && Low(x, k) == 0
    ensures Or(x, Pow2(k - 1)) == x + Pow2(k - 1) < 256
  {
    Small();
    ShrStep(x, k - 1);
    OrOne(x, k - 1);
    Pow2Grows(k - 1, 7);
    Pow2Grows(7, 8);
    OrBelow(x, Pow2(k - 1), 8);
  }

  lemma OneMoreBit(bits: nat, k: nat, b: nat)
    requires b <= 1
    ensures bits < Pow2(k) ==> 2 * bits + b < Pow2(k + 1)
    ensures Shl(2 * bits + b, k) == Shl(bits, k + 1) + (if b == 1 then Pow2(k) else 0)
  {
    ShlAdd(2 * bits, b, k);
    ShlAdd(bits, bits, k);
  }

  // ---------- reading ----------

  // The n bits from p on, as a number.
  function Peek(d: seq<Byte>, p: nat, n: nat): (r: int)
    requires p + n <= 8 * |d|
    ensures 0 <= r < Pow2(n)
  {
    Low(Shr(Num(d), 8 * |d| - p - n), n)
  }

  // A byte in its place is what is read there.
  lemma PeekByte(d: seq<Byte>, i: nat)
    requires i < |d|
    ensures Peek(d, 8 * i, 8) == d[i]
  {
    Small();
    NumPrefix(d, i + 1);
    assert d[..i + 1][..i] == d[..i];
    ShlEight(Num(d[..i]), 0);
    ShrUnique(Num(d[..i + 1]), 8, Num(d[..i]), d[i]);
    assert 8 * |d| - 8 * i - 8 == 8 * (|d| - (i + 1));
  }

  // What is read in parts: k bits from p on, m of them up to q and n from there.
  lemma PeekSplit(d: seq<Byte>, p: nat, m: nat, n: nat, q: nat, k: nat)
    requires q == p + m && k == m + n && p + k <= 8 * |d|
    ensures Peek(d, p, m) == Shr(Peek(d, p, k), n)
    ensures Peek(d, q, n) == Low(Peek(d, p, k), n)
  {
    var e := 8 * |d| - p - k;
    assert 8 * |d| - q - n == e && 8 * |d| - p - m == e + n;
    ShrTwice(Num(d), e, n);
    LowSplit(Shr(Num(d), e), m, n, k);
  }

  lemma LowSplit(x: int, m: nat, n: nat, k: nat)
    requires k == m + n
    ensures Low(Shr(x, n), m) == Shr(Low(x, k), n) && Low(x, n) == Low(Low(x, k), n)
  {
    var y, q := Low(x, k), Shr(x, k);
    ShrLow(x, k);
    ShlTwice(q, m, n);
    var z := Shl(q, m);
    LowSame(x, y, n, z);
    ShrAdd(y, n, z);
    UpperPart(y, Shr(x, n), m, n, k, q);
  }

  lemma UpperPart(y: nat, s: int, m: nat, n: nat, k: nat, q: int)
    requires k == m + n && y < Pow2(k) && s == Shr(y, n) + Shl(q, m)
    ensures Low(s, m) == Shr(y, n)
  {
    ShrLow(y, n);
    Narrow(Shr(y, n), Low(y, n), m, n);
    LowSame(s, Shr(y, n), m, q);
    SmallShr(Shr(y, n), m);
  }

  lemma Narrow(q: int, r: nat, m: nat, n: nat)
    requires Shl(q, n) + r < Pow2(m + n)
    ensures q < Pow2(m)
  {
    ShlTwice(1, m, n);
    ShlOrder(Pow2(m), q, n);
  }

  // A byte out of the bits of two.
  lemma PeekMiddle(d: seq<Byte>, i: nat, q: nat, l1: nat, l2: nat)
    requires i + 1 < |d| && 0 < l1 && 0 < l2 && l1 + l2 == 8 && q == 8 * i + l1
    ensures Peek(d, q, 8) == Shl(Low(d[i], l2), l1) + Shr(d[i + 1], l2)
  {
    var p := 8 * i;
    var w := TwoBytes(d, i, p);
    var k := 8 + l2;
    PeekSplit(d, p, l1, k, q, 16);
    PeekSplit(d, q, 8, l2, q + 8, k);
    MiddleOfTwo(w, d[i], d[i + 1], l1, l2, k);
  }

  lemma TwoBytes(d: seq<Byte>, i: nat, p: nat) returns (w: int)
    requires i + 1 < |d| && p == 8 * i
    ensures w == Peek(d, p, 16) == Shl(d[i], 8) + d[i + 1]
  {
    w := Peek(d, p, 16);
    PeekSplit(d, p, 8, 8, 8 * (i + 1), 16);
    PeekByte(d, i);
    PeekByte(d, i + 1);
    ShrLow(w, 8);
  }

  lemma MiddleOfTwo(w: int, a: Byte, b: Byte, l1: nat, l2: nat, k: nat)
    requires w == Shl(a, 8) + b && 0 < l1 && 0 < l2 && l1 + l2 == 8 && k == 8 + l2
    ensures Shr(Low(w, k), l2) == Shl(Low(a, l2), l1) + Shr(b, l2)
  {
    var h, x := Shr(a, l2), Low(a, l2);
    var y := Shl(x, 8) + b;
    ShrLow(a, l2);
    ShlTwice(h, l2, 8);
    ShlSum(a, Shl(h, l2), x, 8);
    LowSame(w, y, k, h);
    MiddleOfOne(y, x, b, l1, l2, k);
  }

  lemma MiddleOfOne(y: int, x: nat, b: Byte, l1: nat, l2: nat, k: nat)
    requires y == Shl(x, 8) + b && x < Pow2(l2) && 0 < l1 && 0 < l2 && l1 + l2 == 8 && k == 8 + l2
    ensures Low(y, k) == y && Shr(y, l2) == Shl(x, l1) + Shr(b, l2)
  {
    Small();
    Below(x, l2, b, 8);
    SmallShr(y, k);
    ShrLow(b, l2);
    ShlTwice(x, l1, l2);
    var z := Shl(x, l1) + Shr(b, l2);
    ShlSum(z, Shl(x, l1), Shr(b, l2), l2);
    ShrUnique(y, l2, z, Low(b, l2));
  }

  // The two parts of a byte joined again.
  lemma JoinParts(a: Byte, b: Byte, l1: nat, l2: nat)
    requires 0 < l1 && 0 < l2 && l1 + l2 == 8
    ensures Low(Shl(a, l1), 8) == Shl(Low(a, l2), l1)
    ensures Shl(Low(a, l2), l1) >= 0 && Or(Shl(Low(a, l2), l1), Shr(b, l2)) == Shl(Low(a, l2), l1) + Shr(b, l2) < 256
  {
    Small();
    ShrLow(a, l2);
    ShlAdd(Shl(Shr(a, l2), l2), Low(a, l2), l1);
    ShlTwice(Shr(a, l2), l2, l1);
    var x := Shl(Low(a, l2), l1);
    Below(Low(a, l2), l2, 0, l1);
    LowSame(Shl(a, l1), x, 8, Shr(a, l2));
    SmallShr(x, 8);
    ShrUnique(x, l1, Low(a, l2), 0);
    ShrLow(b, l2);
    Narrow(Shr(b, l2), Low(b, l2), l1, l2);
    OrApart(x, Shr(b, l2), l1);
    Below(Low(a, l2), l2, Shr(b, l2), l1);
  }

  class MemoryInputStream {
    const data: seq<Byte>
    const length: nat
    var position: nat
    var isReadBeyondEnd: bool

    ghost predicate Valid()
      reads this
    {
      position <= length <= 8 * |data|
    }

    constructor (data: seq<Byte>, length: nat)
      requires length <= 8 * |data|
      ensures Valid() && this.data == data && this.length == length && position == 0 && !isReadBeyondEnd
    {
      this.data, this.length, position, isReadBeyondEnd := data, length, 0, false;
    }

    method ReadBit() returns (r: bool)
      requires Valid()
      modifies this
      ensures Valid()
      ensures old(position) == length ==> !r && isReadBeyondEnd && position == length
      ensures old(position) < length ==>
        position == old(position) + 1 && isReadBeyondEnd == old(isReadBeyondEnd)
        && Peek(data, old(position), 1) == if r then 1 else 0
    {
      if position == length {
        isReadBeyondEnd := true;
        return false;
      }
      var byteIndex, bitIndex := position / 8, position % 8;
      PeekBit(data, byteIndex, position, bitIndex);
      AndOne(data[byteIndex], 7 - bitIndex);
      position := position + 1;
      r := And(data[byteIndex], Pow2(7 - bitIndex)) != 0;
    }

    // Right at every offset.
    method ReadByte() returns (r: Byte)
      requires Valid()
      modifies this
      ensures Valid()
      ensures old(position) + 8 > length ==> r == 0 && isReadBeyondEnd && position == length
      ensures old(position) + 8 <= length ==>
        position == old(position) + 8 && isReadBeyondEnd == old(isReadBeyondEnd) && r == Peek(data, old(position), 8)
    {
      if position + 8 > length {
        isReadBeyondEnd := true;
        position := length;
        return 0;
      }
      if position % 8 == 0 {
        PeekByte(data, position / 8);
        r := data[position / 8];
      } else {
        var l1 := position % 8;
        var l2 := 8 - l1;
        Indices(position, l1, l2, |data|);
        var a, b := data[(position - l1) / 8], data[(position + l2) / 8];
        PeekMiddle(data, position / 8, position, l1, l2);
        JoinParts(a, b, l1, l2);
        r := Or(Low(Shl(a, l1), 8), Shr(b, l2));
      }
      position := position + 8;
    }

    method ReadUint2() returns (r: Byte)
      requires Valid()
      modifies this
      ensures Valid() && r < 4 && Advanced(old(position), 2, old(isReadBeyondEnd))
      ensures old(position) + 2 <= length ==> r == Peek(data, old(position), 2)
    {
      ghost var p := position;
      OrNibbles();
      r := 0;
      var bit := ReadBit();
      if bit {
        r := Or(r, 0x2);
      }
      bit := ReadBit();
      if bit {
        r := Or(r, 0x1);
      }
      if p + 2 <= length {
        PeekJoin(data, p, 1, 1, p + 1, 2);
      }
    }

    method ReadUint4() returns (r: Byte)
      requires Valid()
      modifies this
      ensures Valid() && Advanced(old(position), 4, old(isReadBeyondEnd))
      ensures old(position) + 4 <= length ==> r == Peek(data, old(position), 4)
    {
      ghost var p := position;
      OrNibbles();
      r := 0;
      var bit := ReadBit();
      if bit {
        r := Or(r, 0x8);
      }
      bit := ReadBit();
      if bit {
        r := Or(r, 0x4);
      }
      var low := ReadUint2();
      r := Or(r, low);
      if p + 4 <= length {
        PeekNibble(data, p);
      }
    }

    method ReadPair() returns (first: Byte, second: Byte)
      requires Valid()
      modifies this
      ensures Valid() && Advanced(old(position), 16, old(isReadBeyondEnd))
      ensures old(position) + 16 <= length ==> 0x100 * first + second == Peek(data, old(position), 16)
    {
      ghost var p := position;
      first := ReadByte();
      second := ReadByte();
      if p + 16 <= length {
        ShlEight(first, 0);
        PeekJoin(data, p, 8, 8, p + 8, 16);
      }
    }

    method ReadUint16Be() returns (r: nat)
      requires Valid()
      modifies this
      ensures Valid() && r < 0x1_0000 && Advanced(old(position), 16, old(isReadBeyondEnd))
      ensures old(position) + 16 <= length ==> r == Peek(data, old(position), 16)
    {
      var high: int, low := ReadPair();
      OrBytes(high, low);
      r := Or(0x100 * high, low);
    }

    method ReadUint16Le() returns (r: nat)
      requires Valid()
      modifies this
      ensures Valid() && r < 0x1_0000 && Advanced(old(position), 16, old(isReadBeyondEnd))
      ensures old(position) + 16 <= length ==> Reversed(r, 2) == Peek(data, old(position), 16)
    {
      var low, high: int := ReadPair();
      OrBytes(high, low);
      ReversedPair(high, low);
      r := Or(low, 0x100 * high);
    }

    method ReadUint24Be() returns (r: nat)
      requires Valid()
      modifies this
      ensures Valid() && r < 0x100_0000 && Advanced(old(position), 24, old(isReadBeyondEnd))
      ensures old(position) + 24 <= length ==> r == Peek(data, old(position), 24)
    {
      ghost var p := position;
      var high: int := ReadByte();
      var low := ReadUint16Be();
      Words(high);
      OrHigh(0x1_0000 * high, high, low, 16);
      r := Or(0x1_0000 * high, low);
      if p + 24 <= length {
        PeekJoin(data, p, 8, 16, p + 8, 24);
      }
    }

    method ReadUint24Le() returns (r: nat)
      requires Valid()
      modifies this
      ensures Valid() && r < 0x100_0000 && Advanced(old(position), 24, old(isReadBeyondEnd))
      ensures old(position) + 24 <= length ==> Reversed(r, 3) == Peek(data, old(position), 24)
    {
      ghost var p := position;
      var low := ReadUint16Le();
      var high: int := ReadByte();
      Words(high);
      OrHigh(0x1_0000 * high, high, low, 16);
      r := Or(low, 0x1_0000 * high);
      ReversedByte(high);
      if p + 24 <= length {
        PeekLittle(data, p, high, low, r, 1, 2, 3);
      }
    }

    method ReadUint32Be() returns (r: nat)
      requires Valid()
      modifies this
      ensures Valid() && r < 0x1_0000_0000 && Advanced(old(position), 32, old(isReadBeyondEnd))
      ensures old(position) + 32 <= length ==> r == Peek(data, old(position), 32)
    {
      ghost var p := position;
      var high := ReadUint16Be();
      var low := ReadUint16Be();
      Words(high);
      OrHigh(0x1_0000 * high, high, low, 16);
      r := Or(0x1_0000 * high, low);
      if p + 32 <= length {
        PeekJoin(data, p, 16, 16, p + 16, 32);
      }
    }

    method ReadUint32Le() returns (r: nat)
      requires Valid()
      modifies this
      ensures Valid() && r < 0x1_0000_0000 && Advanced(old(position), 32, old(isReadBeyondEnd))
      ensures old(position) + 32 <= length ==> Reversed(r, 4) == Peek(data, old(position), 32)
    {
      ghost var p := position;
      var low := ReadUint16Le();
      var high := ReadUint16Le();
      Words(high);
      OrHigh(0x1_0000 * high, high, low, 16);
      r := Or(low, 0x1_0000 * high);
      if p + 32 <= length {
        PeekLittle(data, p, high, low, r, 2, 2, 4);
      }
    }

    method ReadUint64Be() returns (r: nat)
      requires Valid()
      modifies this
      ensures Valid() && r < 0x1_0000_0000_0000_0000 && Advanced(old(position), 64, old(isReadBeyondEnd))
      ensures old(position) + 64 <= length ==> r == Peek(data, old(position), 64)
    {
      ghost var p := position;
      var high := ReadUint32Be();
      var low := ReadUint32Be();
      Words(high);
      OrHigh(0x1_0000_0000 * high, high, low, 32);
      r := Or(0x1_0000_0000 * high, low);
      if p + 64 <= length {
        PeekJoin(data, p, 32, 32, p + 32, 64);
      }
    }

    method ReadUint64Le() returns (r: nat)
      requires Valid()
      modifies this
      ensures Valid() && r < 0x1_0000_0000_0000_0000 && Advanced(old(position), 64, old(isReadBeyondEnd))
      ensures old(position) + 64 <= length ==> Reversed(r, 8) == Peek(data, old(position), 64)
    {
      ghost var p := position;
      var low := ReadUint32Le();
      var high := ReadUint32Le();
      Words(high);
      OrHigh(0x1_0000_0000 * high, high, low, 32);
      r := Or(low, 0x1_0000_0000 * high);
      if p + 64 <= length {
        PeekLittle(data, p, high, low, r, 4, 4, 8);
      }
    }

    // Reads n bytes, or as many as are left. What is left must then be whole bytes: the
    // conversion of a length in bits to one in bytes fails otherwise.
    method ReadBytes(n: nat) returns (bytes: seq<Byte>, ok: bool)
      requires Valid() && position % 8 == 0
      modifies this
      ensures Valid() && (ok <==> old(position) + 8 * n <= length || length % 8 == 0)
      ensures ok ==> Advanced(old(position), 8 * n, old(isReadBeyondEnd))
      ensures ok ==> |bytes| == if old(position) + 8 * n <= length then n else (length - old(position)) / 8
      ensures ok ==> old(position) + 8 * |bytes| == position
      ensures ok ==> forall i :: 0 <= i < |bytes| ==> bytes[i] == Peek(data, old(position) + 8 * i, 8)
      ensures !ok ==> bytes == [] && position == old(position) && isReadBeyondEnd == old(isReadBeyondEnd)
    {
      var k, first := n, position / 8;
      bytes := [];
      if position + 8 * n > length {
        if (length - position) % 8 != 0 {
          ok := false;
          return;
        }
        k := (length - position) / 8;
        isReadBeyondEnd := true;
      }
      ok := true;
      bytes := data[first..first + k];
      forall i | 0 <= i < |bytes| ensures bytes[i] == Peek(data, position + 8 * i, 8) {
        PeekByte(data, first + i);
      }
      position := position + 8 * k;
    }

    // Reads bytes up to a zero; past the end zeros are read.
    method ReadString() returns (s: seq<Byte>)
      requires Valid()
      modifies this
      ensures Valid() && Advanced(old(position), 8 * |s| + 8, old(isReadBeyondEnd))
      ensures Spells(data, length, old(position), s)
      ensures old(position) + 8 * |s| + 8 <= length ==> ByteAt(data, old(position), |s|) == 0
    {
      ghost var p, flag := position, isReadBeyondEnd;
      s := [];
      var b := ReadByte();
      while b != 0
        invariant Valid() && Advanced(p, 8 * |s| + 8, flag) && Spells(data, length, p, s)
        invariant p + 8 * |s| + 8 <= length ==> ByteAt(data, p, |s|) == b
        invariant p + 8 * |s| + 8 > length ==> b == 0
        decreases length - position, b
      {
        SpellsMore(data, length, p, s, b);
        s := s + [b];
        b := ReadByte();
      }
    }

    // One bit of the number: i of its n bits, from p on, are read already.
    method ReadMasked(mul: nat, r: nat, ghost p: nat, ghost i: nat, ghost n: nat, ghost flag: bool) returns (r': nat)
      requires Valid() && i < n && Advanced(p, i, flag)
      modifies this
      ensures Valid() && Advanced(p, i + 1, flag)
      ensures Gathered(data, length, p + i, mul, n - i, r) == Gathered(data, length, p + i + 1, mul / 2, n - i - 1, r')
    {
      OrPositive(r, mul);
      r' := r;
      var bit := ReadBit();
      if bit {
        r' := Or(r, mul);
      }
    }

    method ReadNBits(n: nat, overflow: IntMask) returns (r: int, ok: bool)
      requires Valid()
      modifies this
      ensures Valid() && (ok <==> 0 < n <= 64) && (!ok ==> position == old(position))
      ensures ok ==> Advanced(old(position), n, old(isReadBeyondEnd))
      ensures ok ==> r == Gathered(data, length, old(position), TopMask(n, overflow), n, 0)
      ensures ok && n <= 31 && old(position) + n <= length ==> r == Peek(data, old(position), n)
    {
      if n == 0 || n > 64 {
        return 0, false;
      }
      var mul := TopMask(n, overflow);
      ghost var p, flag, all := position, isReadBeyondEnd, Gathered(data, length, position, mul, n, 0);
      r := 0;
      for i := 0 to n
        invariant Valid() && Advanced(p, i, flag) && r >= 0
        invariant Gathered(data, length, p + i, mul, n - i, r) == all
      {
        r := ReadMasked(mul, r, p, i, n, flag);
        mul := mul / 2;
      }
      ok := true;
      if n <= 31 && p + n <= length {
        GatheredAll(data, length, p, 0, n, 0);
      }
    }

    // How a read of n bits from p on moves the position.
    ghost predicate Advanced(p: nat, n: nat, flag: bool)
      reads this
    {
      if p + n <= length then position == p + n && isReadBeyondEnd == flag
      else position == length && isReadBeyondEnd
    }
  }

  lemma OrNibbles()
    ensures Or(0, 2) == 2 && Or(0, 1) == 1 && Or(2, 1) == 3 && Or(0, 8) == 8 && Or(0, 4) == 4 && Or(8, 4) == 12
    ensures forall low {:trigger Or(12, low)} :: 0 <= low < 4 ==> Or(12, low) == 12 + low
    ensures forall low {:trigger Or(8, low)} :: 0 <= low < 4 ==> Or(8, low) == 8 + low
    ensures forall low {:trigger Or(4, low)} :: 0 <= low < 4 ==> Or(4, low) == 4 + low
  {
  }

  lemma OrBytes(high: Byte, low: Byte)
    ensures Or(0x100 * high, low) == Or(low, 0x100 * high) == 0x100 * high + low
  {
    Small();
    ShlEight(high, 0);
    ShrUnique(0x100 * high, 8, high, 0);
    OrApart(0x100 * high, low, 8);
  }

  // Joining a part that is n places higher.
  lemma OrHigh(x: nat, high: nat, low: nat, n: nat)
    requires x == Shl(high, n) && low < Pow2(n)
    ensures Or(x, low) == Or(low, x) == x + low
  {
    ShrUnique(x, n, high, 0);
    OrApart(x, low, n);
  }

  lemma {:induction false} OrPositive(a: nat, b: nat)
    ensures Or(a, b) >= 0
  {
  }

  // The byte number i from p on.
  function ByteAt(d: seq<Byte>, p: nat, i: nat): int
    requires p + 8 * i + 8 <= 8 * |d|
  {
    Peek(d, p + 8 * i, 8)
  }

  // From p on, the first bytes are those of s, and no zeros.
  ghost predicate Spells(d: seq<Byte>, length: nat, p: nat, s: seq<Byte>) {
    length <= 8 * |d| && (s != [] ==> p + 8 * |s| <= length)
    && forall i {:trigger s[i]} :: 0 <= i < |s| ==> s[i] != 0 && ByteAt(d, p, i) == s[i]
  }

  lemma SpellsMore(d: seq<Byte>, length: nat, p: nat, s: seq<Byte>, b: Byte)
    requires Spells(d, length, p, s) && p + 8 * |s| + 8 <= length && b != 0 && ByteAt(d, p, |s|) == b
    ensures Spells(d, length, p, s + [b])
  {
    assert forall i {:trigger s[i]} :: 0 <= i < |s| ==> (s + [b])[i] == s[i];
  }

  // Two reads joined.
  lemma PeekJoin(d: seq<Byte>, p: nat, m: nat, n: nat, q: nat, k: nat)
    requires q == p + m && k == m + n && p + k <= 8 * |d|
    ensures Peek(d, p, k) == Shl(Peek(d, p, m), n) + Peek(d, q, n)
  {
    PeekSplit(d, p, m, n, q, k);
    ShrLow(Peek(d, p, k), n);
  }

  // Two numbers read with the low byte first, the low one first.
  lemma PeekLittle(d: seq<Byte>, p: nat, high: nat, low: nat, v: nat, j: nat, k: nat, e: nat)
    requires e == j + k && p + 8 * e <= 8 * |d| && v == Shl(high, 8 * k) + low && low < Pow2(8 * k)
    requires Reversed(low, k) == Peek(d, p, 8 * k) && Reversed(high, j) == Peek(d, p + 8 * k, 8 * j)
    ensures Reversed(v, e) == Peek(d, p, 8 * e)
  {
    ReversedJoin(v, low, high, k, j);
    PeekTwo(d, p, 8 * k, 8 * j, 8 * e, Reversed(low, k), Reversed(high, j));
  }

  lemma PeekTwo(d: seq<Byte>, p: nat, m: nat, n: nat, k: nat, x: nat, y: nat)
    requires k == m + n && p + k <= 8 * |d| && x == Peek(d, p, m) && y == Peek(d, p + m, n)
    ensures Peek(d, p, k) == Shl(x, n) + y
  {
    PeekJoin(d, p, m, n, p + m, k);
  }

  lemma PeekNibble(d: seq<Byte>, p: nat)
    requires p + 4 <= 8 * |d|
    ensures Peek(d, p, 4) == 8 * Peek(d, p, 1) + 4 * Peek(d, p + 1, 1) + Peek(d, p + 2, 2)
  {
    PeekJoin(d, p, 1, 1, p + 1, 2);
    PeekJoin(d, p, 2, 2, p + 2, 4);
    FourPlaces(Peek(d, p, 2));
    assert Shl(Peek(d, p, 1), 1) == 2 * Shl(Peek(d, p, 1), 0);
  }

  // The bytes of a text, one by one.
  lemma {:induction false} PeekText(d: seq<Byte>, p: nat, t: seq<Byte>, i: nat, n: nat)
    requires i < |t| && n == 8 * |t| && p + n <= 8 * |d| && Peek(d, p, n) == Num(t)
    ensures ByteAt(d, p, i) == t[i]
    decreases |t|
  {
    var front, last, m := t[..|t| - 1], t[|t| - 1], n - 8;
    PeekSplit(d, p, m, 8, p + m, n);
    Small();
    ShlEight(Num(front), 0);
    ShrUnique(Num(t), 8, Num(front), last);
    if i < |t| - 1 {
      PeekText(d, p, front, i, m);
    }
  }

  // The number read bit by bit from p on, with masks made by shifting the first one; past the end zeros are read.
  function Gathered(d: seq<Byte>, length: nat, p: nat, mul: nat, n: nat, r: nat): nat
    requires length <= 8 * |d|
    decreases n
  {
    if n == 0 then r
    else
      OrPositive(r, mul);
      Gathered(d, length, p + 1, mul / 2, n - 1, if p < length && Peek(d, p, 1) == 1 then Or(r, mul) else r)
  }

  // With the right mask this is the number there.
  lemma {:induction false} GatheredAll(d: seq<Byte>, length: nat, p: nat, i: nat, n: nat, r: nat)
    requires i < n && p + n <= length <= 8 * |d| && r == Shl(Peek(d, p, i), n - i)
    ensures Gathered(d, length, p + i, Pow2(n - 1 - i), n - i, r) == Peek(d, p, n)
    decreases n - i
  {
    var k := n - 1 - i;
    var b := Peek(d, p + i, 1);
    assert Pow2(1) == 2 * Shl(1, 0);
    OrPositive(r, Pow2(k));
    PeekNext(d, p, i, n, r, b);
    if k > 0 {
      GatheredAll(d, length, p, i + 1, n, if b == 1 then Or(r, Pow2(k)) else r);
    }
  }

  // Whatever n bits there are, they are read as the number they are.
  ghost predicate ReadsAll(mul: nat, n: nat) {
    forall d: seq<Byte>, p: nat {:trigger Gathered(d, 8 * |d|, p, mul, n, 0)} ::
      p + n <= 8 * |d| ==> Gathered(d, 8 * |d|, p, mul, n, 0) == Peek(d, p, n)
  }

  function Zeros(k: nat): (r: seq<Byte>)
    ensures |r| == k
  {
    seq(k, i => 0)
  }

  lemma {:induction false} ZerosNum(k: nat)
    ensures Num(Zeros(k)) == 0
  {
    if k > 0 {
      ZerosNum(k - 1);
      assert Zeros(k)[..k - 1] == Zeros(k - 1);
    }
  }

  // Bytes of which only the first bit is set.
  lemma FirstBitOnly(k: nat) returns (d: seq<Byte>)
    ensures |d| == k + 1 && Num(d) == Pow2(8 * k + 7)
  {
    d := [128] + Zeros(k);
    var first: seq<Byte> := [128];
    assert first[..0] == [];
    assert Num(first) == 128;
    NumJoin(first, Zeros(k));
    ZerosNum(k);
    Small();
    ShlTwice(1, 7, 8 * k);
    assert Pow2(8) == 2 * Pow2(7);
  }

  lemma FirstBitPeek(d: seq<Byte>, p: nat, n: nat)
    requires d != [] && Num(d) == Pow2(8 * |d| - 1) && p + n <= 8 * |d|
    ensures Peek(d, p, n) == if p == 0 && n > 0 then Pow2(n - 1) else 0
  {
    PowerPart(8 * |d| - 1, 8 * |d| - p - n, n, p);
  }

  lemma PowerPart(m: nat, k: nat, n: nat, p: nat)
    requires m + 1 == p + n + k
    ensures Low(Shr(Pow2(m), k), n) == if p == 0 && n > 0 then Pow2(n - 1) else 0
  {
    PowerBit(m, k);
    if n == 0 {
      assert Low(Shr(Pow2(m), k), 0) == 0;
    } else if p == 0 {
      Pow2Grows(n - 1, n);
      SmallShr(Pow2(n - 1), n);
    } else {
      HighPower(p - 1, n, m - k);
    }
  }

  lemma HighPower(j: nat, n: nat, m: nat)
    requires m == j + n
    ensures Low(Pow2(m), n) == 0
  {
    ShlTwice(1, j, n);
    ShrUnique(Pow2(m), n, Pow2(j), 0);
  }

  // After the first bit nothing is added.
  lemma {:induction false} GatheredZeros(d: seq<Byte>, p: nat, mul: nat, n: nat, r: nat)
    requires d != [] && Num(d) == Pow2(8 * |d| - 1) && 0 < p && p + n <= 8 * |d|
    ensures Gathered(d, 8 * |d|, p, mul, n, r) == r
    decreases n
  {
    if n > 0 {
      FirstBitPeek(d, p, 1);
      OrPositive(r, mul);
      GatheredZeros(d, p + 1, mul / 2, n - 1, r);
    }
  }

  // The highest bit alone is read as the mask.
  lemma ReadsMask(mul: nat, n: nat) returns (d: seq<Byte>)
    requires n > 0
    ensures n <= 8 * |d| && Peek(d, 0, n) == Pow2(n - 1) && Gathered(d, 8 * |d|, 0, mul, n, 0) == mul
  {
    d := FirstBitOnly(n);
    FirstBitPeek(d, 0, n);
    FirstBitPeek(d, 0, 1);
    OrPositive(0, mul);
    GatheredZeros(d, 1, mul / 2, n - 1, mul);
  }

  // So reading is right exactly with the right mask.
  lemma ReadsExactly(mul: nat, n: nat)
    requires n > 0
    ensures ReadsAll(mul, n) <==> mul == Pow2(n - 1)
  {
    if ReadsAll(mul, n) {
      var d := ReadsMask(mul, n);
    }
    if mul == Pow2(n - 1) {
      forall d: seq<Byte>, p: nat | p + n <= 8 * |d| ensures Gathered(d, 8 * |d|, p, mul, n, 0) == Peek(d, p, n) {
        assert Peek(d, p, 0) == 0;
        GatheredAll(d, 8 * |d|, p, 0, n, 0);
      }
    }
  }

  // That is, exactly if n is at most 31.
  lemma ReadExactly(n: nat, overflow: IntMask)
    requires 0 < n <= 64
    ensures ReadsAll(TopMask(n, overflow), n) <==> n <= 31
  {
    ReadsExactly(TopMask(n, overflow), n);
    if n >= 32 {
      NoIntMask(overflow, n);
    }
  }

  // The number 2^31 in 32 bits is read as the mask, with ones above.
  lemma ReadFails() returns (d: seq<Byte>)
    ensures |d| >= 4 && Peek(d, 0, 32) == 0x8000_0000
    ensures Gathered(d, 8 * |d|, 0, TopMask(32, 0xFFFF_FFFF_8000_0000), 32, 0) == 0xFFFF_FFFF_8000_0000
  {
    MaskSizes();
    d := ReadsMask(TopMask(32, 0xFFFF_FFFF_8000_0000), 32);
  }

  // One bit more of an n-bit number.
  lemma PeekNext(d: seq<Byte>, p: nat, i: nat, n: nat, r: int, b: nat)
    requires i < n && p + i + 1 <= 8 * |d| && r == Shl(Peek(d, p, i), n - i) && b <= 1 && Peek(d, p + i, 1) == b
    ensures (if b == 1 then Or(r, Pow2(n - 1 - i)) else r) == Shl(Peek(d, p, i + 1), n - (i + 1))
  {
    var k := n - 1 - i;
    PeekJoin(d, p, i, 1, p + i, i + 1);
    OneMoreBit(Peek(d, p, i), k, b);
    OrNext(r, Peek(d, p, i), k);
  }

  lemma OrNext(r: int, x: nat, k: nat)
    requires r == Shl(x, k + 1)
    ensures r >= 0 && Or(r, Pow2(k)) == r + Pow2(k)
  {
    ShrUnique(r, k + 1, x, 0);
    Pow2Grows(k, k + 1);
    OrApart(r, Pow2(k), k + 1);
  }

  lemma Indices(p: nat, l1: nat, l2: nat, n: nat)
    requires l1 == p % 8 && l1 > 0 && l1 + l2 == 8 && p + 8 <= 8 * n
    ensures p >= l1 && (p - l1) / 8 == p / 8 && (p + l2) / 8 == p / 8 + 1 < n && p == 8 * (p / 8) + l1
  {
  }

  lemma PeekBit(d: seq<Byte>, i: nat, q: nat, j: nat)
    requires i < |d| && j < 8 && q == 8 * i + j
    ensures Peek(d, q, 1) == Shr(d[i], 7 - j) % 2
  {
    var p := 8 * i;
    PeekByte(d, i);
    var m, n := 8 - j, 7 - j;
    PeekSplit(d, p, j, m, q, 8);
    PeekSplit(d, q, 1, n, q + 1, m);
    LowSplit(d[i], 1, n, m);
    LowOne(Shr(d[i], n));
  }

  lemma LowOne(x: int)
    ensures Low(x, 1) == x % 2
  {
    assert Low(x / 2, 0) == 0;
  }

  // ---------- what is written is read back ----------

  // The values that can be written, each by its own method.
  datatype Field =
    | Bit(bit: bool)
    | Uint2(value: nat)
    | Uint4(value: nat)
    | Uint8(value: nat)
    | Uint16Be(value: nat)
    | Uint16Le(value: nat)
    | Uint24Be(value: nat)
    | Uint24Le(value: nat)
    | Uint32Be(value: nat)
    | Uint32Le(value: nat)
    | Uint64Be(value: nat)
    | Uint64Le(value: nat)
    | NBits(value: nat, n: nat)
    | Bytes(s: seq<Byte>)
    | Text(s: seq<Byte>)
  {
    function Width(): nat {
      match this
      case Bit(_) => 1
      case Uint2(_) => 2
      case Uint4(_) => 4
      case Uint8(_) => 8
      case Uint16Be(_) => 16
      case Uint16Le(_) => 16
      case Uint24Be(_) => 24
      case Uint24Le(_) => 24
      case Uint32Be(_) => 32
      case Uint32Le(_) => 32
      case Uint64Be(_) => 64
      case Uint64Le(_) => 64
      case NBits(_, n) => n
      case Bytes(s) => 8 * |s|
      case Text(s) => 8 * |s| + 8
    }

    // The bits of the field as a number.
    function Payload(): int {
      match this
      case Bit(b) => if b then 1 else 0
      case Uint16Le(v) => Reversed(v, 2)
      case Uint24Le(v) => Reversed(v, 3)
      case Uint32Le(v) => Reversed(v, 4)
      case Uint64Le(v) => Reversed(v, 8)
      case Bytes(s) => Num(s)
      case Text(s) => Num(s + [0])
      case _ => value
    }

    // The values a field of this kind can hold, and the places where it can be written: bytes
    // at every fourth bit, texts at every eighth; numbers of n bits have at most 31 and texts
    // no zero bytes.
    predicate Fits(at: nat) {
      match this
      case Bit(_) => true
      case Uint2(v) => v < 4
      case Uint4(v) => v < 16
      case Uint8(v) => v < 256 && at % 4 == 0
      case Uint16Be(v) => v < 0x1_0000 && at % 4 == 0
      case Uint16Le(v) => v < 0x1_0000 && at % 4 == 0
      case Uint24Be(v) => v < 0x100_0000 && at % 4 == 0
      case Uint24Le(v) => v < 0x100_0000 && at % 4 == 0
      case Uint32Be(v) => v < 0x1_0000_0000 && at % 4 == 0
      case Uint32Le(v) => v < 0x1_0000_0000 && at % 4 == 0
      case Uint64Be(v) => v < 0x1_0000_0000_0000_0000 && at % 4 == 0
      case Uint64Le(v) => v < 0x1_0000_0000_0000_0000 && at % 4 == 0
      case NBits(v, n) => 0 < n <= 31 && v < Pow2(n)
      case Bytes(_) => at % 8 == 0
      case Text(s) => at % 8 == 0 && forall i :: 0 <= i < |s| ==> s[i] != 0
    }
  }

  function Length(fs: seq<Field>): nat {
    if fs == [] then 0 else Length(fs[..|fs| - 1]) + fs[|fs| - 1].Width()
  }

  // Each field fits where those before it end.
  predicate AllFit(fs: seq<Field>) {
    fs == [] || (AllFit(fs[..|fs| - 1]) && fs[|fs| - 1].Fits(Length(fs[..|fs| - 1])))
  }

  function Total(fs: seq<Field>): nat {
    if fs == [] then 0 else Shl(Total(fs[..|fs| - 1]), fs[|fs| - 1].Width()) + Natural(fs[|fs| - 1].Payload())
  }

  function Natural(x: int): nat {
    if x < 0 then 0 else x
  }

  // Payloads take no more room than the width says.
  lemma PayloadRoom(f: Field, at: nat)
    requires f.Fits(at)
    ensures 0 <= f.Payload() < Pow2(f.Width())
  {
    Small();
    Words(0);
    assert Pow2(1) == 2 * Shl(1, 0) && Pow2(2) == 2 * Pow2(1);
    match f {
      case Uint16Le(v) => ReversedBelow(v, 2);
      case Uint24Le(v) => ReversedBelow(v, 3);
      case Uint32Le(v) => ReversedBelow(v, 4);
      case Uint64Le(v) => ReversedBelow(v, 8);
      case Bytes(s) => NumBelow(s);
      case Text(s) => NumBelow(s + [0]);
      case _ =>
    }
  }

  // The numbers of two bytes and more, the highest byte first.
  predicate IsBig(f: Field) {
    f.Uint16Be? || f.Uint24Be? || f.Uint32Be? || f.Uint64Be?
  }

  // And the lowest byte first.
  predicate IsLittle(f: Field) {
    f.Uint16Le? || f.Uint24Le? || f.Uint32Le? || f.Uint64Le?
  }

  // Two bits or four, and bytes in their order.
  predicate IsShort(f: Field) {
    f.Uint2? || f.Uint4?
  }

  predicate IsBytes(f: Field) {
    f.Uint8? || f.Bytes? || f.Text?
  }

  method WriteField(out: MemoryOutputStream, f: Field)
    requires out.Valid() && f.Fits(out.length)
    modifies out
    ensures out.Valid() && out.length == old(out.length) + f.Width()
    ensures f.Payload() >= 0 && out.bits == Append(old(out.bits), f.Payload(), f.Width())
  {
    PayloadRoom(f, out.length);
    if IsBig(f) {
      WriteBig(out, f);
    } else if IsLittle(f) {
      WriteLittle(out, f);
    } else if IsBytes(f) {
      WriteWhole(out, f);
    } else if IsShort(f) {
      WriteShort(out, f);
    } else if f.NBits? {
      SmallShr(f.value, f.n);
      var ok := out.WriteNBits(f.value, f.n, 0);
    } else {
      assert Shl(out.bits, 1) == 2 * Shl(out.bits, 0);
      out.WriteBit(f.bit);
    }
  }

  method WriteShort(out: MemoryOutputStream, f: Field)
    requires IsShort(f) && out.Valid() && f.Fits(out.length)
    modifies out
    ensures out.Valid() && out.length == old(out.length) + f.Width()
    ensures f.Payload() >= 0 && out.bits == Append(old(out.bits), f.Payload(), f.Width())
  {
    var v := f.value;
    if f.Uint2? {
      assert f.Payload() == v == v % 4 && f.Width() == 2;
      out.WriteUint2(v);
    } else {
      assert f.Payload() == v == v % 16 && f.Width() == 4;
      out.WriteUint4(v);
    }
  }

  method WriteWhole(out: MemoryOutputStream, f: Field)
    requires IsBytes(f) && out.Valid() && f.Fits(out.length)
    modifies out
    ensures out.Valid() && out.length == old(out.length) + f.Width()
    ensures f.Payload() >= 0 && out.bits == Append(old(out.bits), f.Payload(), f.Width())
  {
    match f {
      case Uint8(v) =>
        out.WriteByte(v);
      case Bytes(s) =>
        out.WriteBytes(s);
      case Text(s) =>
        out.WriteString(s);
    }
  }

  method WriteBig(out: MemoryOutputStream, f: Field)
    requires IsBig(f) && out.Valid() && f.Fits(out.length)
    modifies out
    ensures out.Valid() && out.length == old(out.length) + f.Width()
    ensures f.Payload() >= 0 && out.bits == Append(old(out.bits), f.Payload(), f.Width())
  {
    match f {
      case Uint16Be(v) =>
        out.WriteUint16Be(v);
      case Uint24Be(v) =>
        out.WriteUint24Be(v);
      case Uint32Be(v) =>
        out.WriteUint32Be(v);
      case Uint64Be(v) =>
        out.WriteUint64Be(v);
    }
  }

  method WriteLittle(out: MemoryOutputStream, f: Field)
    requires IsLittle(f) && out.Valid() && f.Fits(out.length)
    modifies out
    ensures out.Valid() && out.length == old(out.length) + f.Width()
    ensures f.Payload() >= 0 && out.bits == Append(old(out.bits), f.Payload(), f.Width())
  {
    match f {
      case Uint16Le(v) =>
        out.WriteUint16Le(v);
      case Uint24Le(v) =>
        assert v % 0x100_0000 == v;
        out.WriteUint24Le(v);
      case Uint32Le(v) =>
        out.WriteUint32Le(v);
      case Uint64Le(v) =>
        out.WriteUint64Le(v);
    }
  }

  // Reads a field of the kind given, of which it uses nothing but the kind and the number of bits
  // or bytes.
  method ReadField(input: MemoryInputStream, kind: Field, ghost f: Field) returns (g: Field)
    requires input.Valid() && SameKind(kind, f) && f.Fits(input.position)
    requires input.position + f.Width() <= input.length && Peek(input.data, input.position, f.Width()) == f.Payload()
    modifies input
    ensures input.Valid() && g == f && input.position == old(input.position) + f.Width()
    ensures input.isReadBeyondEnd == old(input.isReadBeyondEnd)
  {
    if IsBig(kind) {
      g := ReadBig(input, kind, f);
    } else if IsLittle(kind) {
      g := ReadLittle(input, kind, f);
    } else if IsBytes(kind) {
      g := ReadWhole(input, kind, f);
    } else if IsShort(kind) {
      g := ReadShort(input, kind, f);
    } else if kind.NBits? {
      var v, ok := input.ReadNBits(kind.n, 0);
      g := NBits(v, kind.n);
    } else {
      var b := input.ReadBit();
      g := Bit(b);
    }
  }

  method ReadShort(input: MemoryInputStream, kind: Field, ghost f: Field) returns (g: Field)
    requires IsShort(kind) && input.Valid() && SameKind(kind, f) && f.Fits(input.position)
    requires input.position + f.Width() <= input.length && Peek(input.data, input.position, f.Width()) == f.Payload()
    modifies input
    ensures input.Valid() && g == f && input.position == old(input.position) + f.Width()
    ensures input.isReadBeyondEnd == old(input.isReadBeyondEnd)
  {
    match kind {
      case Uint2(_) =>
        var v := input.ReadUint2();
        g := Uint2(v);
      case Uint4(_) =>
        var v := input.ReadUint4();
        g := Uint4(v);
    }
  }

  method ReadWhole(input: MemoryInputStream, kind: Field, ghost f: Field) returns (g: Field)
    requires IsBytes(kind) && input.Valid() && SameKind(kind, f) && f.Fits(input.position)
    requires input.position + f.Width() <= input.length && Peek(input.data, input.position, f.Width()) == f.Payload()
    modifies input
    ensures input.Valid() && g == f && input.position == old(input.position) + f.Width()
    ensures input.isReadBeyondEnd == old(input.isReadBeyondEnd)
  {
    ghost var p := input.position;
    match kind {
      case Uint8(_) =>
        var v := input.ReadByte();
        g := Uint8(v);
      case Bytes(s) =>
        var t, ok := input.ReadBytes(|s|);
        BytesUnique(input.data, p, t, f.s);
        g := Bytes(t);
      case Text(_) =>
        var s := input.ReadString();
        TextUnique(input.data, input.length, p, s, f.s);
        g := Text(s);
    }
  }

  method ReadBig(input: MemoryInputStream, kind: Field, ghost f: Field) returns (g: Field)
    requires IsBig(kind) && input.Valid() && SameKind(kind, f) && f.Fits(input.position)
    requires input.position + f.Width() <= input.length && Peek(input.data, input.position, f.Width()) == f.Payload()
    modifies input
    ensures input.Valid() && g == f && input.position == old(input.position) + f.Width()
    ensures input.isReadBeyondEnd == old(input.isReadBeyondEnd)
  {
    var v;
    match kind {
      case Uint16Be(_) =>
        v := input.ReadUint16Be();
        g := Uint16Be(v);
      case Uint24Be(_) =>
        v := input.ReadUint24Be();
        g := Uint24Be(v);
      case Uint32Be(_) =>
        v := input.ReadUint32Be();
        g := Uint32Be(v);
      case Uint64Be(_) =>
        v := input.ReadUint64Be();
        g := Uint64Be(v);
    }
  }

  method ReadLittle(input: MemoryInputStream, kind: Field, ghost f: Field) returns (g: Field)
    requires IsLittle(kind) && input.Valid() && SameKind(kind, f) && f.Fits(input.position)
    requires input.position + f.Width() <= input.length && Peek(input.data, input.position, f.Width()) == f.Payload()
    modifies input
    ensures input.Valid() && g == f && input.position == old(input.position) + f.Width()
    ensures input.isReadBeyondEnd == old(input.isReadBeyondEnd)
  {
    var v;
    Words(0);
    match kind {
      case Uint16Le(_) =>
        v := input.ReadUint16Le();
        g := Uint16Le(v);
        SameReversed(v, f.value, 2);
      case Uint24Le(_) =>
        v := input.ReadUint24Le();
        g := Uint24Le(v);
        SameReversed(v, f.value, 3);
      case Uint32Le(_) =>
        v := input.ReadUint32Le();
        g := Uint32Le(v);
        SameReversed(v, f.value, 4);
      case Uint64Le(_) =>
        v := input.ReadUint64Le();
        g := Uint64Le(v);
        SameReversed(v, f.value, 8);
    }
  }

  predicate SameKind(a: Field, b: Field) {
    match a
    case Bit(_) => b.Bit?
    case Uint2(_) => b.Uint2?
    case Uint4(_) => b.Uint4?
    case Uint8(_) => b.Uint8?
    case Uint16Be(_) => b.Uint16Be?
    case Uint16Le(_) => b.Uint16Le?
    case Uint24Be(_) => b.Uint24Be?
    case Uint24Le(_) => b.Uint24Le?
    case Uint32Be(_) => b.Uint32Be?
    case Uint32Le(_) => b.Uint32Le?
    case Uint64Be(_) => b.Uint64Be?
    case Uint64Le(_) => b.Uint64Le?
    case NBits(_, n) => b.NBits? && b.n == n
    case Bytes(s) => b.Bytes? && |b.s| == |s|
    case Text(_) => b.Text?
  }

  lemma SameReversed(v: nat, w: nat, k: nat)
    requires v < Pow2(8 * k) && w < Pow2(8 * k) && Reversed(v, k) == Reversed(w, k)
    ensures v == w
  {
    ReversedTwice(v, k);
    ReversedTwice(w, k);
  }

  // The bytes read are the bytes there.
  lemma BytesUnique(d: seq<Byte>, p: nat, s: seq<Byte>, t: seq<Byte>)
    requires |s| == |t| && p + 8 * |t| <= 8 * |d| && Peek(d, p, 8 * |t|) == Num(t)
    requires forall i :: 0 <= i < |s| ==> s[i] == Peek(d, p + 8 * i, 8)
    ensures s == t
  {
    forall i | 0 <= i < |t| ensures s[i] == t[i] {
      PeekText(d, p, t, i, 8 * |t|);
    }
  }

  // A text without zeros ends at the first zero.
  lemma TextUnique(d: seq<Byte>, length: nat, p: nat, s: seq<Byte>, t: seq<Byte>)
    requires p + 8 * |t| + 8 <= length && Spells(d, length, p, s) && Peek(d, p, 8 * |t| + 8) == Num(t + [0])
    requires forall i :: 0 <= i < |t| ==> t[i] != 0
    requires p + 8 * |s| + 8 <= length ==> ByteAt(d, p, |s|) == 0
    ensures s == t
  {
    TextLength(d, length, p, s, t);
    forall i | 0 <= i < |t| ensures s[i] == t[i] {
      TextBytes(d, p, t, i);
    }
  }

  lemma TextLength(d: seq<Byte>, length: nat, p: nat, s: seq<Byte>, t: seq<Byte>)
    requires p + 8 * |t| + 8 <= length && Spells(d, length, p, s) && Peek(d, p, 8 * |t| + 8) == Num(t + [0])
    requires forall i :: 0 <= i < |t| ==> t[i] != 0
    requires p + 8 * |s| + 8 <= length ==> ByteAt(d, p, |s|) == 0
    ensures |s| == |t|
  {
    assert |s| > |t| ==> s[|t|] != 0;
    if |s| < |t| {
      TextBytes(d, p, t, |s|);
    } else if |s| > |t| {
      TextBytes(d, p, t, |t|);
    }
  }

  lemma TextBytes(d: seq<Byte>, p: nat, t: seq<Byte>, i: nat)
    requires p + 8 * |t| + 8 <= 8 * |d| && Peek(d, p, 8 * |t| + 8) == Num(t + [0]) && i <= |t|
    ensures ByteAt(d, p, i) == if i < |t| then t[i] else 0
  {
    var u: seq<Byte>, n := t + [0], 8 * |t| + 8;
    PeekText(d, p, u, i, n);
    assert u[i] == if i < |t| then t[i] else 0;
  }

  lemma {:induction false} AllFitAt(fs: seq<Field>, i: nat)
    requires AllFit(fs) && i < |fs|
    ensures fs[i].Fits(Length(fs[..i])) && AllFit(fs[..i])
    decreases |fs|
  {
    if i < |fs| - 1 {
      AllFitAt(fs[..|fs| - 1], i);
      assert fs[..|fs| - 1][..i] == fs[..i];
    }
  }

  lemma OneField(fs: seq<Field>, i: nat)
    requires AllFit(fs) && i < |fs|
    ensures Length(fs[..i + 1]) == Length(fs[..i]) + fs[i].Width()
    ensures fs[i].Fits(Length(fs[..i])) && 0 <= fs[i].Payload() < Pow2(fs[i].Width())
    ensures Total(fs[..i + 1]) == Append(Total(fs[..i]), fs[i].Payload(), fs[i].Width())
  {
    AllFitAt(fs, i);
    PayloadRoom(fs[i], Length(fs[..i]));
    assert fs[..i + 1][..i] == fs[..i];
  }

  // What was written first is what is left when the rest is shifted out.
  lemma {:induction false} TotalPrefix(fs: seq<Field>, i: nat)
    requires AllFit(fs) && i <= |fs|
    ensures Length(fs[..i]) <= Length(fs) && Shr(Total(fs), Length(fs) - Length(fs[..i])) == Total(fs[..i])
    decreases |fs| - i
  {
    if i == |fs| {
      assert fs[..i] == fs;
    } else {
      TotalPrefix(fs, i + 1);
      PrefixBefore(fs, i, Total(fs), Length(fs), Length(fs[..i + 1]), Total(fs[..i + 1]));
    }
  }

  lemma PrefixBefore(fs: seq<Field>, i: nat, x: int, n: nat, longer: nat, t1: nat)
    requires AllFit(fs) && i < |fs| && longer == Length(fs[..i + 1]) && t1 == Total(fs[..i + 1])
    requires longer <= n && Shr(x, n - longer) == t1
    ensures Length(fs[..i]) <= n && Shr(x, n - Length(fs[..i])) == Total(fs[..i])
  {
    OneField(fs, i);
    var shorter, t0, w, p := Length(fs[..i]), Total(fs[..i]), fs[i].Width(), fs[i].Payload();
    PrefixStep(x, n, longer, t1, shorter, t0, w, p);
  }

  lemma PrefixStep(x: int, n: nat, longer: nat, t1: nat, shorter: nat, t0: nat, w: nat, p: int)
    requires longer == shorter + w && longer <= n && Shr(x, n - longer) == t1
    requires 0 <= p < Pow2(w) && t1 == Append(t0, p, w)
    ensures shorter <= n && Shr(x, n - shorter) == t0
  {
    ShiftOut(x, n - longer, w, n - shorter, t1, t0, p);
  }

  lemma ShiftOut(x: int, k: nat, w: nat, m: nat, longer: int, t: int, p: int)
    requires m == k + w && Shr(x, k) == longer == Shl(t, w) + p && 0 <= p < Pow2(w)
    ensures Shr(x, m) == t && Low(longer, w) == p
  {
    ShrTwice(x, k, w);
    ShrUnique(longer, w, t, p);
  }

  // Each field lies where those before it end.
  lemma FieldAt(d: seq<Byte>, fs: seq<Field>, i: nat, u: nat)
    requires AllFit(fs) && i < |fs| && Holds(d, Length(fs), Total(fs), u)
    ensures Length(fs[..i]) + fs[i].Width() <= Length(fs)
    ensures Peek(d, Length(fs[..i]), fs[i].Width()) == fs[i].Payload()
  {
    var k := FieldShifted(fs, i);
    FieldPlace(fs, i, k);
    PeekHeld(d, Num(d), Total(fs), u, k, Length(fs[..i]), fs[i].Width(), fs[i].Payload());
  }

  lemma FieldShifted(fs: seq<Field>, i: nat) returns (k: nat)
    requires AllFit(fs) && i < |fs|
    ensures Length(fs[..i + 1]) <= Length(fs) && k == Length(fs) - Length(fs[..i + 1])
    ensures Low(Shr(Total(fs), k), fs[i].Width()) == fs[i].Payload()
  {
    TotalPrefix(fs, i + 1);
    k := Length(fs) - Length(fs[..i + 1]);
    var longer := Total(fs[..i + 1]);
    assert Shr(Total(fs), k) == longer;
    LowField(fs, i, longer);
  }

  lemma LowField(fs: seq<Field>, i: nat, longer: int)
    requires AllFit(fs) && i < |fs| && longer == Total(fs[..i + 1])
    ensures Low(longer, fs[i].Width()) == fs[i].Payload()
  {
    OneField(fs, i);
    ShrUnique(longer, fs[i].Width(), Total(fs[..i]), fs[i].Payload());
  }

  lemma FieldPlace(fs: seq<Field>, i: nat, k: nat)
    requires AllFit(fs) && i < |fs| && k + Length(fs[..i + 1]) == Length(fs)
    ensures Length(fs[..i]) + fs[i].Width() + k == Length(fs)
  {
    OneField(fs, i);
  }

  // The bits of a number that the bytes hold.
  lemma PeekHeld(d: seq<Byte>, x: int, t: int, u: nat, k: nat, p: nat, w: nat, pay: int)
    requires p + w <= 8 * |d| && u + k == 8 * |d| - p - w && x == Num(d) == Shl(t, u) && Low(Shr(t, k), w) == pay
    ensures Peek(d, p, w) == pay
  {
    ShrTwice(x, u, k);
    ShrUnique(x, u, t, 0);
  }

  predicate SameKinds(kinds: seq<Field>, fs: seq<Field>) {
    |kinds| == |fs| && forall i {:trigger kinds[i]} {:trigger fs[i]} :: 0 <= i < |kinds| ==> SameKind(kinds[i], fs[i])
  }

  // Reads fields of the kinds given from bytes that hold the fields fs. Of the kinds it uses the
  // kind and the numbers of bits and bytes only: what the fields are it finds in the bytes.
  method ReadAll(input: MemoryInputStream, kinds: seq<Field>, ghost fs: seq<Field>, ghost u: nat) returns (gs: seq<Field>)
    requires AllFit(fs) && SameKinds(kinds, fs)
    requires Holds(input.data, input.length, Total(fs), u) && input.length == Length(fs)
    requires input.Valid() && input.position == 0 && !input.isReadBeyondEnd
    modifies input
    ensures gs == fs && input.position == input.length && !input.isReadBeyondEnd
  {
    gs := [];
    for i := 0 to |kinds|
      invariant input.Valid() && gs == fs[..i] && input.position == Length(fs[..i]) && !input.isReadBeyondEnd
    {
      var g := ReadOne(input, kinds[i], fs, i, u);
      gs := gs + [g];
    }
    assert fs[..|kinds|] == fs;
  }

  method ReadOne(input: MemoryInputStream, kind: Field, ghost fs: seq<Field>, ghost i: nat, ghost u: nat) returns (g: Field)
    requires AllFit(fs) && i < |fs| && SameKind(kind, fs[i])
    requires Holds(input.data, input.length, Total(fs), u) && input.length == Length(fs)
    requires input.Valid() && input.position == Length(fs[..i])
    modifies input
    ensures input.Valid() && g == fs[i] && input.position == Length(fs[..i + 1])
    ensures input.isReadBeyondEnd == old(input.isReadBeyondEnd)
  {
    FieldAt(input.data, fs, i, u);
    OneField(fs, i);
    g := ReadField(input, kind, fs[i]);
  }

  // What WriteAll wrote is read back from its bytes alone, given the kinds.
  method ReadBack(data: seq<Byte>, length: nat, kinds: seq<Field>, ghost fs: seq<Field>, ghost u: nat)
    returns (gs: seq<Field>, beyond: bool, left: nat)
    requires AllFit(fs) && SameKinds(kinds, fs) && length == Length(fs) && Holds(data, length, Total(fs), u)
    ensures gs == fs && !beyond && left == 0
  {
    var input := new MemoryInputStream(data, length);
    gs := ReadAll(input, kinds, fs, u);
    beyond, left := input.isReadBeyondEnd, input.length - input.position;
  }

  // The bytes say which fields they hold: there are no two sequences of the same kinds that leave
  // the same bytes.
  lemma {:induction false} RoundTrip(d: seq<Byte>, fs: seq<Field>, gs: seq<Field>, u: nat, v: nat, i: nat)
    requires AllFit(fs) && AllFit(gs) && SameKinds(fs, gs) && i <= |fs|
    requires Holds(d, Length(fs), Total(fs), u) && Holds(d, Length(gs), Total(gs), v)
    ensures fs[..i] == gs[..i]
    decreases i
  {
    if i > 0 {
      var k := i - 1;
      RoundTrip(d, fs, gs, u, v, k);
      FieldAt(d, fs, k, u);
      FieldAt(d, gs, k, v);
      OneField(fs, k);
      OneField(gs, k);
      FieldUnique(d, Length(fs[..k]), fs[k], gs[k]);
      SameFront(fs, gs, k);
    }
  }

  lemma SameFront(fs: seq<Field>, gs: seq<Field>, k: nat)
    requires k < |fs| && k < |gs| && fs[..k] == gs[..k] && fs[k] == gs[k]
    ensures fs[..k + 1] == gs[..k + 1]
  {
    assert fs[..k + 1] == fs[..k] + [fs[k]] && gs[..k + 1] == gs[..k] + [gs[k]];
  }

  // The same for one field.
  lemma FieldUnique(d: seq<Byte>, p: nat, f: Field, g: Field)
    requires SameKind(f, g) && f.Fits(p) && g.Fits(p)
    requires p + f.Width() <= 8 * |d| && Peek(d, p, f.Width()) == f.Payload()
    requires p + g.Width() <= 8 * |d| && Peek(d, p, g.Width()) == g.Payload()
    ensures f == g
  {
    Words(0);
    match f {
      case Uint16Le(v) => SameReversed(v, g.value, 2);
      case Uint24Le(v) => SameReversed(v, g.value, 3);
      case Uint32Le(v) => SameReversed(v, g.value, 4);
      case Uint64Le(v) => SameReversed(v, g.value, 8);
      case Bytes(s) => NumUnique(s, g.s);
      case Text(s) => TextsUnique(d, p, s, g.s);
      case _ =>
    }
  }

  lemma {:induction false} NumUnique(s: seq<Byte>, t: seq<Byte>)
    requires |s| == |t| && Num(s) == Num(t)
    ensures s == t
  {
    if s != [] {
      var n := |s| - 1;
      NumUnique(s[..n], t[..n]);
      assert s == s[..n] + [s[n]] && t == t[..n] + [t[n]];
    }
  }

  lemma TextsUnique(d: seq<Byte>, p: nat, s: seq<Byte>, t: seq<Byte>)
    requires p + 8 * |s| + 8 <= 8 * |d| && Peek(d, p, 8 * |s| + 8) == Num(s + [0]) && forall i :: 0 <= i < |s| ==> s[i] != 0
    requires p + 8 * |t| + 8 <= 8 * |d| && Peek(d, p, 8 * |t| + 8) == Num(t + [0]) && forall i :: 0 <= i < |t| ==> t[i] != 0
    ensures s == t
  {
    forall i | 0 <= i <= |s| ensures ByteAt(d, p, i) == if i < |s| then s[i] else 0 {
      TextBytes(d, p, s, i);
    }
    TextUnique(d, 8 * |d|, p, s, t);
  }

  // The bytes that hold the fields, as few as possible, with the number of unused bits.
  method WriteAll(fs: seq<Field>) returns (data: (seq<Byte>, nat), length: nat)
    requires AllFit(fs)
    ensures length == Length(fs) && data.1 < 8 && Holds(data.0, length, Total(fs), data.1)
  {
    var out := new MemoryOutputStream();
    for i := 0 to |fs|
      invariant out.Valid() && fresh(out) && out.length == Length(fs[..i]) && out.bits == Total(fs[..i])
    {
      OneField(fs, i);
      WriteField(out, fs[i]);
    }
    assert fs[..|fs|] == fs;
    data, length := (out.data, 8 * |out.data| - out.length), out.length;
  }
}
