/** 128-bit integers on two 64-bit words (int128.h, int128.cc). */
module Int128s {
  import opened Bitwise
  import opened Prelude

  const BITS: nat := 64  // of a word

  // ---------- machine words ----------

  type UInt64 = x: int | 0 <= x < Pow2(BITS)
  type Int64 = x: int | -Pow2(BITS - 1) <= x < Pow2(BITS - 1)

  // The value of x as a signed number of w bits.
  function Signed(x: int, w: nat): (r: int)
    requires w > 0
    ensures -Pow2(w - 1) <= r < Pow2(w - 1)
  {
    Low(x + Pow2(w - 1), w) - Pow2(w - 1)
  }

  // The conversions to uint64_t and int64_t, and to 128 bits.
  function ToUInt64(x: int): UInt64 {
    Low(x, BITS)
  }

  function ToInt64(x: int): Int64 {
    Signed(x, BITS)
  }

  function Wrap(x: int): int {
    Signed(x, BITS + BITS)
  }

  // Conversions lose a multiple of 2^w, and nothing where there is room.
  lemma SignedMoves(x: int, w: nat) returns (d: int)
    requires w > 0
    ensures x == Signed(x, w) + Shl(d, w)
  {
    ShrLow(x + Pow2(w - 1), w);
    d := Shr(x + Pow2(w - 1), w);
  }

  lemma SignedSame(x: int, y: int, w: nat, d: int)
    requires w > 0 && x == y + Shl(d, w)
    ensures Signed(x, w) == Signed(y, w)
  {
    LowSame(x + Pow2(w - 1), y + Pow2(w - 1), w, d);
  }

  lemma SignedFits(x: int, w: nat)
    requires w > 0 && -Pow2(w - 1) <= x < Pow2(w - 1)
    ensures Signed(x, w) == x
  {
    SmallShr(x + Pow2(w - 1), w);
  }

  lemma LowMoves(x: int, w: nat) returns (d: int)
    ensures x == Low(x, w) + Shl(d, w)
  {
    ShrLow(x, w);
    d := Shr(x, w);
  }

  // Shifting by a word.
  lemma ShlWord(x: int, n: nat)
    ensures Shl(x, n + 64) == 0x1_0000_0000_0000_0000 * Shl(x, n) && Shl(x, n + 63) == 0x8000_0000_0000_0000 * Shl(x, n)
  {
    ShlEight(x, n);
    ShlEight(x, n + 8);
    ShlEight(x, n + 16);
    ShlEight(x, n + 24);
    ShlEight(x, n + 32);
    ShlEight(x, n + 40);
    ShlEight(x, n + 48);
    ShlEight(x, n + 56);
    assert Shl(x, n + 64) == 2 * Shl(x, n + 63);
  }

  // What the words are in numbers.
  lemma WordSizes(x: int)
    ensures Shl(x, BITS) == 0x1_0000_0000_0000_0000 * x
    ensures Pow2(BITS) == 0x1_0000_0000_0000_0000 && Pow2(BITS - 1) == 0x8000_0000_0000_0000
    ensures Pow2(BITS + BITS) == 0x1_0000_0000_0000_0000_0000_0000_0000_0000
    ensures Pow2(BITS + BITS - 1) == 0x8000_0000_0000_0000_0000_0000_0000_0000
  {
    ShlWord(x, 0);
    ShlWord(1, 0);
    ShlWord(1, 64);
  }

  // ---------- shifts, word by word ----------

  // A word of w bits is so many places to the left.
  lemma WordSplit(x: int, n: nat, w: nat)
    requires n <= w
    ensures Shl(Shl(x, w - n), n) == Shl(x, w) == Shl(Shl(x, n), w - n)
  {
    ShlTwice(x, w - n, n);
    ShlTwice(x, n, w - n);
  }

  // The low bits do not depend on the word above.
  lemma LowUnsigned(x: int, k: int, n: nat, w: nat)
    requires n <= w
    ensures Low(x + Shl(k, w), n) == Low(x, n)
  {
    WordSplit(k, n, w);
    ShrAdd(x, n, Shl(k, w - n));
  }

  // Shifting two words right, the bits that leave the high word entering the low one.
  lemma ShiftRightWords(v: int, hi: int, lo: nat, n: nat, w: nat)
    requires n <= w && lo < Pow2(w) && v == Shl(hi, w) + lo
    ensures 0 <= Shl(Low(hi, n), w - n) + Shr(lo, n) < Pow2(w)
    ensures Shr(v, n) == Shl(Shr(hi, n), w) + (Shl(Low(hi, n), w - n) + Shr(lo, n))
  {
    var h, l, s, r := Shr(hi, n), Low(hi, n), Shr(lo, n), Low(lo, n);
    ShrLow(hi, n);
    ShrLow(lo, n);
    Below(l, s, n, w);
    var q := ShlParts(h, l, s, n, w);
    ShlAdd(Shl(h, n), l, w);
    ShrUnique(v, n, q, r);
  }

  lemma ShlParts(h: int, l: int, s: int, n: nat, w: nat) returns (q: int)
    requires n <= w
    ensures q == Shl(h, w) + (Shl(l, w - n) + s) && Shl(q, n) == Shl(Shl(h, n), w) + (Shl(l, w) + Shl(s, n))
  {
    var a, b := Shl(h, w), Shl(l, w - n);
    q := a + (b + s);
    ShlTwice(h, n, w);
    ShlTwice(h, w, n);
    WordSplit(l, n, w);
    ShlAdd(b, s, n);
    ShlAdd(a, b + s, n);
  }

  lemma Below(l: nat, s: nat, n: nat, w: nat)
    requires n <= w && l < Pow2(n) && Shl(s, n) < Pow2(w)
    ensures 0 <= Shl(l, w - n) + s < Pow2(w)
  {
    WordSplit(1, n, w);
    ShlOrder(l + 1, Pow2(n), w - n);
    ShlAdd(l, 1, w - n);
    ShlOrder(Pow2(w - n), s, n);
  }

  lemma BelowLeft(s: nat, r: nat, n: nat, w: nat)
    requires n <= w && r < Pow2(w - n) && Shl(s, w - n) < Pow2(w)
    ensures 0 <= Shl(r, n) < Pow2(w) && s < Pow2(n)
  {
    WordSplit(1, n, w);
    ShlOrder(r + 1, Pow2(w - n), n);
    ShlAdd(r, 1, n);
    ShlOrder(Pow2(n), s, w - n);
  }

  lemma ShlLow(lo: nat, s: nat, r: nat, n: nat, w: nat)
    requires n <= w && lo == Shl(s, w - n) + r
    ensures Shl(lo, n) == Shl(s, w) + Shl(r, n)
  {
    ShlAdd(Shl(s, w - n), r, n);
    WordSplit(s, n, w);
  }

  lemma ShlValue(v: int, hi: int, lo: int, n: nat, w: nat) returns (p: int)
    requires v == Shl(hi, w) + lo
    ensures p == Shl(Shl(hi, n), w) && Shl(v, n) == p + Shl(lo, n)
  {
    p := Shl(Shl(hi, n), w);
    ShlSwap(hi, n, w);
    ShlSum(v, Shl(hi, w), lo, n);
  }

  lemma ShlBoth(v: int, hi: int, lo: int, s: int, y: int, n: nat, w: nat)
    requires v == Shl(hi, w) + lo && y == Shl(hi, n) + s
    ensures Shl(v, n) == Shl(y, w) + (Shl(lo, n) - Shl(s, w))
  {
    var p := ShlValue(v, hi, lo, n, w);
    ShlSum(y, Shl(hi, n), s, w);
  }

  // Shifting two words left: what leaves the low word enters the high one, what leaves that is lost.
  lemma ShiftLeftWords(v: int, hi: int, lo: nat, s: int, y: int, n: nat, w: nat)
    requires n <= w && lo < Pow2(w) && v == Shl(hi, w) + lo && s == Shr(lo, w - n) && y == Shl(hi, n) + s
    ensures 0 <= Shl(Low(lo, w - n), n) < Pow2(w) && 0 <= s < Pow2(n)
    ensures Shl(lo, n) == Shl(s, w) + Shl(Low(lo, w - n), n)
    ensures Shl(v, n) == Shl(y, w) + Shl(Low(lo, w - n), n)
  {
    var r := Low(lo, w - n);
    ShrLow(lo, w - n);
    BelowLeft(s, r, n, w);
    ShlLow(lo, s, r, n, w);
    ShlBoth(v, hi, lo, s, y, n, w);
  }

  // ---------- the words of a value, of w bits ----------

  predicate IsWord(x: int, w: nat) {
    0 <= x < Pow2(w)
  }

  predicate IsSigned(x: int, w: nat) {
    w > 0 && -Pow2(w - 1) <= x < Pow2(w - 1)
  }

  // The low bits of a word do not depend on its sign.
  lemma SameLow(x: int, n: nat, w: nat)
    requires n <= w
    ensures Low(Low(x, w), n) == Low(x, n)
  {
    var k := LowMoves(x, w);
    LowUnsigned(Low(x, w), k, n, w);
  }

  // A high word cut to w bits cuts the value to twice as many.
  lemma JoinWords(v: int, x: int, l: int, w: nat)
    requires w > 0 && IsWord(l, w) && v == Shl(x, w) + l
    ensures Shl(Signed(x, w), w) + l == Signed(v, w + w)
  {
    var h := Signed(x, w);
    var k := SignedMoves(x, w);
    ShlTwice(k, w, w);
    ShlAdd(h, Shl(k, w), w);
    SignedSame(v, Shl(h, w) + l, w + w, k);
    ValueFits(h, l, w);
    SignedFits(Shl(h, w) + l, w + w);
  }

  lemma ValueFits(h: int, l: int, w: nat)
    requires IsSigned(h, w) && IsWord(l, w)
    ensures IsSigned(Shl(h, w) + l, w + w)
  {
    var half := Pow2(w - 1);
    ShlTwice(1, w - 1, w);
    ShlOrder(-half, h, w);
    ShlAdd(half, -half, w);
    ShlOrder(h, half - 1, w);
    ShlAdd(half, -1, w);
    ShlAdd(1, -1, w);
  }

  // The bits of the high word that enter the low one.
  lemma Entering(hi: int, lo: int, n: nat, mid: int, w: nat)
    requires n < w && IsWord(lo, w) && mid == And(Low(hi, w), Pow2(n) - 1)
    ensures mid == Low(hi, n)
    ensures IsWord(Shl(mid, w - n) + Shr(lo, n), w)
    ensures Shl(mid, w - n) >= 0 && Or(Shr(lo, n), Low(Shl(mid, w - n), w)) == Shl(mid, w - n) + Shr(lo, n)
  {
    AndLow(Low(hi, w), n);
    SameLow(hi, n, w);
    ShrLow(lo, n);
    Below(mid, Shr(lo, n), n, w);
    SmallShr(Shl(mid, w - n), w);
    ShrUnique(Shl(mid, w - n), w - n, mid, 0);
    ShrRoom(lo, n, w - n, w);
    OrApart(Shl(mid, w - n), Shr(lo, n), w - n);
  }

  lemma ShrRoom(lo: int, n: nat, m: nat, w: nat)
    requires n + m == w && IsWord(lo, w)
    ensures Shr(lo, n) < Pow2(m)
  {
    ShrLow(lo, n);
    ShlTwice(1, m, n);
    ShlOrder(Pow2(m), Shr(lo, n), n);
  }

  // >>= by less than a word.
  lemma RightBits(v: int, hi: int, lo: int, n: nat, mid: int, low: int, w: nat)
    requires n < w && IsWord(lo, w) && v == Shl(hi, w) + lo
    requires mid == And(Low(hi, w), Pow2(n) - 1) && low == Or(Shr(lo, n), Low(Shl(mid, w - n), w))
    ensures IsWord(low, w) && Shl(Shr(hi, n), w) + low == Shr(v, n)
  {
    Entering(hi, lo, n, mid, w);
    ShiftRightWords(v, hi, lo, n, w);
  }

  // The high bits of the low word, moved down.
  lemma Carry(lo: int, n: nat, m: nat, mask: int, carry: int, w: nat)
    requires n + m == w && IsWord(lo, w) && mask == Pow2(w) - 1 - (Pow2(m) - 1) && mask >= 0 && carry == And(lo, mask)
    ensures Shr(carry, m) == Shr(lo, m)
  {
    Pow2Grows(m, w);
    AndUpper(lo, Pow2(m) - 1, m, w);
    ShrLow(lo, m);
    ShrUnique(carry, m, Shr(lo, m), 0);
  }

  lemma AndUpper(a: int, m: int, n: nat, w: nat)
    requires IsWord(a, w) && IsWord(m, w) && m == Pow2(n) - 1
    ensures And(a, Pow2(w) - 1 - m) == a - Low(a, n)
  {
    AndLow(a, n);
    AndNot(a, m, w);
  }

  // What leaves the low word joins the high one.
  lemma Joining(x: int, n: nat, high: int, s: int, top: int, w: nat)
    requires 0 < n <= w && 0 <= s < Pow2(n) && Low(x, n) == 0
    requires high == Signed(x, w) && top == Signed(Or(Low(high, w), s), w)
    ensures top == Signed(x + s, w)
  {
    var d := SignedMoves(x, w);
    LowSame(x, high, w, d);
    SameLow(x, n, w);
    OrApart(Low(x, w), s, n);
    var k := LowMoves(x, w);
    SignedSame(x + s, Low(x, w) + s, w, k);
  }

  // <<= by less than a word: the new high word, and the new low one.
  lemma LeftBits(v: int, u: int, hi: int, lo: int, n: nat, x: int, s: int, high: int, top: int, low: int, w: nat)
    requires 0 < n < w && IsWord(lo, w) && v == Shl(hi, w) + lo && u == Shl(v, n)
    requires x == Shl(hi, n) && s == Shr(lo, w - n)
    requires high == Signed(x, w) && top == Signed(Or(Low(high, w), s), w) && low == Low(Shl(lo, n), w)
    ensures Shl(top, w) + low == Signed(u, w + w)
  {
    var y := x + s;
    LeftLow(v, hi, lo, n, s, y, low, w);
    LeftHigh(hi, lo, n, x, s, high, top, w);
    JoinWords(u, y, low, w);
  }

  lemma LeftHigh(hi: int, lo: int, n: nat, x: int, s: int, high: int, top: int, w: nat)
    requires 0 < n < w && IsWord(lo, w) && x == Shl(hi, n) && s == Shr(lo, w - n)
    requires high == Signed(x, w) && top == Signed(Or(Low(high, w), s), w)
    ensures top == Signed(x + s, w)
  {
    ShrUnique(x, n, hi, 0);
    ShrRoom(lo, w - n, n, w);
    Joining(x, n, high, s, top, w);
  }

  lemma LeftLow(v: int, hi: int, lo: int, n: nat, s: int, y: int, low: int, w: nat)
    requires n < w && IsWord(lo, w) && v == Shl(hi, w) + lo && s == Shr(lo, w - n)
    requires y == Shl(hi, n) + s && low == Low(Shl(lo, n), w)
    ensures Shl(v, n) == Shl(y, w) + low
  {
    ShiftLeftWords(v, hi, lo, s, y, n, w);
    ShrUnique(Shl(lo, n), w, s, Shl(Low(lo, w - n), n));
  }

  // ---------- sums and negation, word by word ----------

  // Adding the words, with the carry seen from the wrapped low one.
  lemma AddWords(u: int, ah: int, al: int, bh: int, bl: int, l: int, h: int, top: int, w: nat)
    requires w > 0 && IsWord(al, w) && IsWord(bl, w) && u == (Shl(ah, w) + al) + (Shl(bh, w) + bl)
    requires l == Low(al + bl, w) && h == Signed(ah + bh, w) && top == if l < al then Signed(h + 1, w) else h
    ensures Shl(top, w) + l == Signed(u, w + w)
  {
    var x := SumWords(u, ah, al, bh, bl, l, h, top, w);
    JoinWords(u, x, l, w);
  }

  lemma SumWords(u: int, ah: int, al: int, bh: int, bl: int, l: int, h: int, top: int, w: nat) returns (x: int)
    requires w > 0 && IsWord(al, w) && IsWord(bl, w) && u == (Shl(ah, w) + al) + (Shl(bh, w) + bl)
    requires l == Low(al + bl, w) && h == Signed(ah + bh, w) && top == if l < al then Signed(h + 1, w) else h
    ensures top == Signed(x, w) && u == Shl(x, w) + l
  {
    var c := CarryOut(al, bl, l, w);
    x := ah + bh + c;
    CarryIn(ah + bh, h, c, top, x, w);
    var p := ShlThree(x, ah, bh, c, w);
  }

  lemma ShlThree(x: int, a: int, b: int, c: int, n: nat) returns (p: int)
    requires x == a + b + c
    ensures p == Shl(x, n) == Shl(a, n) + Shl(b, n) + Shl(c, n)
  {
    p := Shl(x, n);
    ShlAdd(a, b, n);
    ShlSum(x, a + b, c, n);
  }

  // The high word may be wrapped before the carry comes in.
  lemma CarryIn(y: int, h: int, c: int, top: int, x: int, w: nat)
    requires w > 0 && h == Signed(y, w) && 0 <= c <= 1 && x == y + c && top == if c == 1 then Signed(h + 1, w) else h
    ensures top == Signed(x, w)
  {
    var d := SignedMoves(y, w);
    SignedSame(x, h + c, w, d);
    SignedTwice(y, w);
  }

  lemma CarryOut(a: int, b: int, l: int, w: nat) returns (c: int)
    requires IsWord(a, w) && IsWord(b, w) && l == Low(a + b, w)
    ensures c == (if l < a then 1 else 0) && a + b == l + Shl(c, w)
  {
    if a + b < Pow2(w) {
      SmallShr(a + b, w);
      c := 0;
    } else {
      ShrUnique(a + b, w, 1, a + b - Pow2(w));
      c := 1;
    }
  }

  lemma SignedTwice(x: int, w: nat)
    requires w > 0
    ensures Signed(Signed(x, w), w) == Signed(x, w)
  {
    SignedFits(Signed(x, w), w);
  }

  // Negating the words.
  lemma NegateWords(u: int, h: int, l: int, top: int, low: int, w: nat)
    requires w > 0 && IsSigned(h, w) && IsWord(l, w) && u == -(Shl(h, w) + l)
    requires low == Low(-l, w) && top == if l == 0 then Signed(-h, w) else -h - 1
    ensures Shl(top, w) + low == Signed(u, w + w)
  {
    var c := if l == 0 then 0 else 1;
    var x := -h - c;
    ShlNegate(h, w);
    ShlNegate(c, w);
    ShlSum(x, -h, -c, w);
    ShrUnique(-l, w, -c, Shl(c, w) - l);
    SignedFits(-h - 1, w);
    JoinWords(u, x, low, w);
  }

  lemma {:induction false} ShlNegate(x: int, n: nat)
    ensures Shl(-x, n) == -Shl(x, n)
    decreases n
  {
    if n > 0 {
      ShlNegate(x, n - 1);
    }
  }

  lemma WrapSum(x: int, y: int, z: int)
    requires z == x + y
    ensures Wrap(x + Wrap(y)) == Wrap(z)
  {
    var d := SignedMoves(y, BITS + BITS);
    SignedSame(z, x + Wrap(y), BITS + BITS, d);
  }

  // ---------- shifts by a word or more ----------

  lemma RightFar(v: int, h: int, l: int, n: nat, top: int, low: int, w: nat)
    requires IsSigned(h, w) && IsWord(l, w) && v == Shl(h, w) + l && n >= w + w
    requires top == (if h < 0 then -1 else 0) && low == Low(top, w)
    ensures Shl(top, w) + low == Shr(v, n)
  {
    ValueFits(h, l, w);
    Pow2Grows(w + w - 1, n);
    ShlNegate(1, n);
    ShlNegate(1, w);
    ShlSign(h, l, w);
    ShrUnique(v, n, top, v - Shl(top, n));
    ShrUnique(top, w, top, -Shl(top, w) + top);
  }

  lemma ShlSign(h: int, l: int, w: nat)
    requires IsWord(l, w)
    ensures h < 0 <==> Shl(h, w) + l < 0
  {
    ShlOrder(h, -1, w);
    ShlNegate(1, w);
  }

  lemma RightWord(v: int, h: int, l: int, n: nat, top: int, low: int, w: nat)
    requires IsSigned(h, w) && IsWord(l, w) && v == Shl(h, w) + l && w <= n < w + w
    requires top == (if h < 0 then -1 else 0) && low == Low(Shr(h, n - w), w)
    ensures Shl(top, w) + low == Shr(v, n)
  {
    ShrUnique(v, w, h, l);
    ShrTwice(v, w, n - w);
    var x := Shr(h, n - w);
    ShrSigned(h, n - w, w);
    SignExtend(x, top, low, w);
  }

  lemma SignExtend(x: int, top: int, low: int, w: nat)
    requires IsSigned(x, w) && top == (if x < 0 then -1 else 0) && low == Low(x, w)
    ensures Shl(top, w) + low == x
  {
    ShlNegate(1, w);
    ShrUnique(x, w, top, x - Shl(top, w));
  }

  // Shifting right stays in range.
  lemma {:induction false} ShrSigned(x: int, n: nat, w: nat)
    requires IsSigned(x, w)
    ensures IsSigned(Shr(x, n), w)
    decreases n
  {
    if n > 0 {
      assert IsSigned(x / 2, w);
      ShrSigned(x / 2, n - 1, w);
    }
  }

  lemma LeftFar(v: int, n: nat, w: nat)
    requires w > 0 && n >= w + w
    ensures Signed(Shl(v, n), w + w) == 0
  {
    WordSplit(v, w + w, n);
    var d := Shl(v, n - (w + w));
    SignedSame(Shl(v, n), 0, w + w, d);
    SignedFits(0, w + w);
  }

  lemma LeftWord(v: int, u: int, h: int, l: int, n: nat, top: int, w: nat)
    requires w > 0 && v == Shl(h, w) + l && u == Shl(v, n) && w <= n < w + w && top == Signed(Low(Shl(l, n - w), w), w)
    ensures Shl(top, w) == Signed(u, w + w)
  {
    var x := Shl(l, n - w);
    var k := LowMoves(x, w);
    SignedSame(x, Low(x, w), w, k);
    var y := LeftWordValue(v, h, l, n, x, w);
    SignedSame(y, x, w, Shl(h, n - w));
    JoinWords(u, y, 0, w);
  }

  lemma LeftWordValue(v: int, h: int, l: int, n: nat, x: int, w: nat) returns (y: int)
    requires v == Shl(h, w) + l && w <= n && x == Shl(l, n - w)
    ensures y == x + Shl(Shl(h, n - w), w) && Shl(v, n) == Shl(y, w)
  {
    ShlSum(v, Shl(h, w), l, n - w);
    y := Shl(v, n - w);
    ShlSwap(h, w, n - w);
    ShlTwice(v, n - w, w);
  }

  // One bit of a value is one bit of a word.
  lemma BitWords(v: int, h: int, l: int, n: nat, w: nat)
    requires IsWord(l, w) && v == Shl(h, w) + l
    ensures n < w ==> Shr(v, n) % 2 == Shr(l, n) % 2
    ensures w <= n < w + w ==> Shr(v, n) % 2 == Shr(Low(h, w), n - w) % 2
  {
    if n < w {
      LowBit(v, l, h, n, w);
    } else if n < w + w {
      ShrUnique(v, w, h, l);
      ShrTwice(v, w, n - w);
      var d := LowMoves(h, w);
      LowBit(h, Low(h, w), d, n - w, w);
    }
  }

  lemma LowBit(v: int, l: int, h: int, n: nat, w: nat)
    requires n < w && v == l + Shl(h, w)
    ensures Shr(v, n) % 2 == Shr(l, n) % 2
  {
    ShrStep(v, n);
    ShrStep(l, n);
    WordSplit(h, n + 1, w);
    LowSame(v, l, n + 1, Shl(h, w - (n + 1)));
    WordSplit(h, n, w);
    LowSame(v, l, n, Shl(h, w - n));
  }

  lemma FarBit(v: int, h: int, l: int, n: nat, w: nat)
    requires IsSigned(h, w) && IsWord(l, w) && v == Shl(h, w) + l && n >= w + w
    ensures Shr(v, n) % 2 == 1 <==> h < 0
  {
    var top := if h < 0 then -1 else 0;
    RightFar(v, h, l, n, top, Low(top, w), w);
    SignExtend(top, top, Low(top, w), w);
  }

  // What setting or clearing the bit n adds to x.
  function BitChange(x: int, n: nat, val: bool): int {
    if val && Shr(x, n) % 2 == 0 then Pow2(n)
    else if !val && Shr(x, n) % 2 == 1 then -Pow2(n)
    else 0
  }

  // Then that bit is as it should be, and every other as it was.
  lemma {:induction false} ChangedBits(x: int, n: nat, val: bool, k: nat)
    ensures Shr(x + BitChange(x, n, val), k) % 2 == 1 <==> if k == n then val else Shr(x, k) % 2 == 1
    decreases n
  {
    var y := x + BitChange(x, n, val);
    if n == 0 {
      assert y / 2 == x / 2 && (y % 2 == 1 <==> val);
    } else {
      assert BitChange(x, n, val) == 2 * BitChange(x / 2, n - 1, val);
      assert y / 2 == x / 2 + BitChange(x / 2, n - 1, val) && y % 2 == x % 2;
      if k > 0 {
        ChangedBits(x / 2, n - 1, val, k - 1);
      }
    }
  }

  // And so in 128 bits, whether the value wraps or not.
  lemma BitsAfterSet(v: int, n: nat, val: bool, k: nat)
    requires n < BITS + BITS && k < BITS + BITS
    ensures Shr(Wrap(v + BitChange(v, n, val)), k) % 2 == 1 <==> if k == n then val else Shr(v, k) % 2 == 1
  {
    var y := v + BitChange(v, n, val);
    ChangedBits(v, n, val, k);
    var d := SignedMoves(y, BITS + BITS);
    LowBit(y, Wrap(y), d, k, BITS + BITS);
  }

  // |= and &= with one bit of a word.
  function WithBit(x: UInt64, n: nat, val: bool): (r: UInt64)
    requires n < BITS
    ensures r == x + BitChange(x, n, val)
  {
    Pow2Grows(n, BITS);
    AndOne(x, n);
    OrOne(x, n);
    AndNot(x, Pow2(n), BITS);
    BitRoom(x, n, BITS);
    if val then Or(x, Pow2(n)) else And(x, Pow2(BITS) - 1 - Pow2(n))
  }

  // There is room for a bit that is clear.
  lemma BitRoom(x: int, n: nat, w: nat)
    requires IsWord(x, w) && n < w
    ensures Shr(x, n) % 2 == 0 ==> x + Pow2(n) < Pow2(w)
  {
    ShrStep(x, n);
    ShrLow(x, n + 1);
    ShrRoom(x, n + 1, w - (n + 1), w);
    ShlOrder(Shr(x, n + 1) + 1, Pow2(w - (n + 1)), n + 1);
    ShlAdd(Shr(x, n + 1), 1, n + 1);
    WordSplit(1, n + 1, w);
  }

  lemma BitFloor(x: int, n: nat)
    requires x >= 0
    ensures Shr(x, n) % 2 == 1 ==> x >= Pow2(n)
  {
    ShrLow(x, n);
    ShlOrder(1, Shr(x, n), n);
  }

  // A bit below the sign bit is set in the high word as in an unsigned one.
  lemma SetHigh(h: int, n: nat, val: bool, x: int, t: int, w: nat)
    requires IsSigned(h, w) && n < w - 1 && x == Low(h, w) && t == x + BitChange(x, n, val)
    ensures BitChange(x, n, val) == BitChange(h, n, val) && Signed(t, w) == h + BitChange(x, n, val)
  {
    var k := LowMoves(h, w);
    LowBit(h, x, k, n, w);
    var c := BitChange(h, n, val);
    SignedSame(h + c, t, w, k);
    ChangeFits(h, n, val, w);
    SignedFits(h + c, w);
  }

  lemma ChangeFits(h: int, n: nat, val: bool, w: nat)
    requires IsSigned(h, w) && n < w - 1
    ensures IsSigned(h + BitChange(h, n, val), w)
  {
    var half := Pow2(w - 1);
    var y := if h < 0 then h + half else h;
    if h < 0 {
      LowBit(y, h, 1, n, w - 1);
    }
    BitRoom(y, n, w - 1);
    BitFloor(y, n);
  }

  lemma SameChange(v: int, h: int, l: int, n: nat, m: nat, val: bool, x: int, w: nat) returns (c: int)
    requires IsWord(l, w) && v == Shl(h, w) + l && n == m + w && m < w && x == Low(h, w)
    ensures c == BitChange(x, m, val) && BitChange(v, n, val) == Shl(c, w)
  {
    BitWords(v, h, l, n, w);
    c := BitChange(x, m, val);
    ShlTwice(1, m, w);
    ShlNegate(Pow2(m), w);
  }

  lemma SetHighValue(v: int, h: int, l: int, n: nat, m: nat, val: bool, x: int, t: int, top: int, w: nat)
    requires IsSigned(h, w) && IsWord(l, w) && v == Shl(h, w) + l && n == m + w && m < w - 1
    requires x == Low(h, w) && t == x + BitChange(x, m, val) && top == Signed(t, w)
    ensures Shl(top, w) + l == v + BitChange(v, n, val)
  {
    SetHigh(h, m, val, x, t, w);
    var c := SameChange(v, h, l, n, m, val, x, w);
    ShlSum(top, h, c, w);
  }

  // The sign bit too, but for the wrap-around.
  lemma SetHighWraps(v: int, h: int, l: int, n: nat, m: nat, val: bool, x: int, t: int, y: int, w: nat)
    requires IsSigned(h, w) && IsWord(l, w) && v == Shl(h, w) + l && n == m + w && m < w && x == Low(h, w)
    requires t == x + BitChange(x, m, val) && y == v + BitChange(v, n, val)
    ensures Shl(Signed(t, w), w) + l == Signed(y, w + w)
  {
    var k := LowMoves(h, w);
    var c := SameChange(v, h, l, n, m, val, x, w);
    ChangedValue(v, h, l, c, x, k, t, y, w);
  }

  lemma SetHighWords(v: int, h: int, l: int, n: nat, m: nat, val: bool, x: int, t: int, top: int, y: int, w: nat)
    requires IsSigned(h, w) && IsWord(l, w) && v == Shl(h, w) + l && n == m + w && m < w && x == Low(h, w)
    requires t == x + BitChange(x, m, val) && top == Signed(t, w) && y == v + BitChange(v, n, val)
    ensures Shl(top, w) + l == Signed(y, w + w)
    ensures m < w - 1 ==> Shl(top, w) + l == y
  {
    SetHighWraps(v, h, l, n, m, val, x, t, y, w);
    if m < w - 1 {
      SetHighValue(v, h, l, n, m, val, x, t, top, w);
    }
  }

  lemma ChangedValue(v: int, h: int, l: int, c: int, x: int, k: int, t: int, y: int, w: nat)
    requires w > 0 && IsWord(l, w) && v == Shl(h, w) + l && h == x + Shl(k, w) && t == x + c && y == v + Shl(c, w)
    ensures Shl(Signed(t, w), w) + l == Signed(y, w + w)
  {
    var g := h + c;
    ShlSum(g, h, c, w);
    SignedSame(g, t, w, k);
    JoinWords(y, g, l, w);
  }

  // ---------- multiplication ----------

  lemma WrapZero()
    ensures Wrap(0) == 0
  {
    SignedFits(0, BITS + BITS);
  }

  lemma WrapBoth(x: int, y: int, z: int)
    requires z == x + y
    ensures Wrap(Wrap(x) + Wrap(y)) == Wrap(z)
  {
    WrapSum(Wrap(x), y, Wrap(x) + y);
    WrapSum(y, x, z);
  }

  lemma SmallProducts(h: Int64, l: UInt64, bh: Int64, bl: UInt64)
    ensures var x, y := Shl(h, BITS) + l, Shl(bh, BITS) + bl;
      && (bh == 0 && bl == 0 ==> Wrap(x * y) == 0)
      && (bh == 0 && bl == 1 ==> Wrap(x * y) == x)
  {
    var x, y := Shl(h, BITS) + l, Shl(bh, BITS) + bl;
    ValueFits(h, l, BITS);
    SignedFits(x, BITS + BITS);
    WrapZero();
    assert bh == 0 && bl == 0 ==> x * y == 0;
    assert bh == 0 && bl == 1 ==> x * y == x;
  }

  lemma MulStep(x: int, y: int, i: nat)
    ensures x * Low(y, i + 1) == x * Low(y, i) + (if Shr(y, i) % 2 == 1 then Shl(x, i) else 0)
    ensures Shr(y, i + 1) == Shr(Shr(y, i), 1)
  {
    ShrStep(y, i);
    ShlIsMul(x, i);
    var b := if Shr(y, i) % 2 == 1 then Pow2(i) else 0;
    Distribute(x, Low(y, i), b);
  }

  lemma Distribute(x: int, a: int, b: int)
    ensures x * (a + b) == x * a + x * b
  {
  }

  lemma LowestBit(v: int, h: int, l: UInt64)
    requires v == Shl(h, BITS) + l
    ensures And(l, 1) != 0 <==> v % 2 == 1
  {
    AndOne(l, 0);
  }

  lemma MulNone(x: int, y: int)
    ensures Wrap(x * Low(y, 0)) == 0
  {
    WrapZero();
    assert Low(y, 0) == 0 && x * 0 == 0;
  }

  // The product with all the bits is the product, but for a multiple of 2^n.
  lemma MulAll(x: int, y: int, n: nat)
    requires n == BITS + BITS
    ensures Wrap(x * Low(y, n)) == Wrap(x * y)
  {
    var q := Shr(y, n);
    ShrLow(y, n);
    Distribute(x, Shl(q, n), Low(y, n));
    ShlIsMul(q, n);
    ShlIsMul(x * q, n);
    MulThree(x, q, Pow2(n));
    SignedSame(x * y, x * Low(y, n), n, x * q);
  }

  lemma MulThree(a: int, b: int, c: int)
    ensures (a * b) * c == a * (b * c)
  {
  }

  // ---------- order ----------

  lemma ValueOrder(ah: int, al: int, bh: int, bl: int, w: nat)
    requires IsWord(al, w) && IsWord(bl, w)
    ensures Shl(ah, w) + al < Shl(bh, w) + bl <==> ah < bh || (ah == bh && al < bl)
  {
    ShlOrder(ah + 1, bh, w);
    ShlOrder(bh + 1, ah, w);
    ShlAdd(ah, 1, w);
    ShlAdd(bh, 1, w);
  }

  lemma SignedWord(x: int, w: nat)
    requires w > 0 && IsWord(x, w)
    ensures Signed(x, w) == if x < Pow2(w - 1) then x else x - Pow2(w)
  {
    ShlNegate(1, w);
    if x < Pow2(w - 1) {
      SignedFits(x, w);
    } else {
      SignedSame(x, x - Pow2(w), w, 1);
      SignedFits(x - Pow2(w), w);
    }
  }

  // ---------- division ----------

  // Division that rounds towards zero, the remainder taking the sign of the dividend.
  predicate IsQuotient(a: int, b: int, q: int, r: int) {
    a == q * b + r && Abs(r) < Abs(b) && (r == 0 || (r < 0 <==> a < 0))
  }

  function Abs(x: int): nat {
    if x < 0 then -x else x
  }

  // There is only one such quotient.
  lemma QuotientUnique(a: int, b: int, q: int, r: int, q': int, r': int)
    requires b != 0 && IsQuotient(a, b, q, r) && IsQuotient(a, b, q', r')
    ensures q == q' && r == r'
  {
    assert (q - q') * b == r' - r;
    MulAway(q - q', b);
  }

  lemma MulAway(k: int, b: int)
    ensures (k >= 1 && b >= 0) || (k <= -1 && b <= 0) ==> k * b >= (if b < 0 then -b else b)
    ensures (k >= 1 && b <= 0) || (k <= -1 && b >= 0) ==> k * b <= (if b < 0 then b else -b)
  {
  }

  // Where division stands at bit b: k times d and r make up what is left of n there.
  ghost predicate Partial(n: int, d: int, b: nat, k: int, q: int, r: int) {
    && 0 < d <= n < Pow2(BITS + BITS - 1) && 0 <= k && 0 <= r
    && q == Shl(k, b) && Shr(n, b) == k * d + r
    && (r < d || (k % 2 == 0 && r < 2 * d))
  }

  lemma SignOfValue(v: int, h: Int64, l: UInt64)
    requires v == Shl(h, BITS) + l
    ensures h < 0 <==> v < 0
  {
    ShlSign(h, l, BITS);
  }

  lemma NegativeFits(v: int, h: Int64, l: UInt64)
    requires v == Shl(h, BITS) + l && v != -Pow2(BITS + BITS - 1)
    ensures Wrap(-v) == -v
  {
    ValueFits(h, l, BITS);
    SignedFits(-v, BITS + BITS);
  }

  // -2^127 is its own negative.
  lemma LeastNegated(v: int, w: nat)
    requires w > 0 && v == -Pow2(w - 1)
    ensures Signed(-v, w) == v && Signed(0, w) == 0
  {
    SignedSame(-v, v, w, 1);
    SignedFits(v, w);
    SignedFits(0, w);
  }

  lemma EndlessStep(d: int, r: int, r': int)
    requires d == -Pow2(BITS + BITS - 1) && (r == 0 || r == d) && r' == Wrap(r - d)
    ensures r' == if r == 0 then d else 0
  {
    LeastNegated(d, BITS + BITS);
  }

  lemma BitBelow(n: int, b: nat)
    requires b > 0
    ensures Shr(n, b - 1) == 2 * Shr(n, b) + Shr(n, b - 1) % 2
  {
    ShrStep(n, b - 1);
  }

  lemma FarShift(n: int)
    requires 0 <= n < Pow2(BITS + BITS - 1)
    ensures Shr(n, 128) == 0 && Shr(n, 127) == 0
  {
    Pow2Grows(BITS + BITS - 1, 128);
    SmallShr(n, 128);
    SmallShr(n, 127);
  }

  // Doubling stays even when it wraps around.
  lemma EvenWrap(v: int)
    ensures Wrap(2 * v) % 2 == 0
  {
    var d := SignedMoves(2 * v, BITS + BITS);
    assert Shl(d, BITS + BITS) == 2 * Shl(d, BITS + BITS - 1);
  }

  // Shifting in one more bit below d does not wrap around.
  lemma FirstFits(n: int, b: nat, r: int, d: int)
    requires b > 0 && 0 <= r < d < Pow2(BITS + BITS - 1) && r == Shr(n, b) && 0 <= n < Pow2(BITS + BITS - 1)
    ensures Wrap(2 * r) == 2 * r && Shr(n, b - 1) == 2 * r + Shr(n, b - 1) % 2
  {
    BitBelow(n, b);
    SignedFits(2 * r, BITS + BITS);
  }

  lemma LeastWords(v: int, h: int, l: int, w: nat)
    requires w > 0 && IsWord(l, w) && v == Shl(h, w) + l && v == -Pow2(w + w - 1)
    ensures h == -Pow2(w - 1) && l == 0
  {
    ShlTwice(1, w - 1, w);
    ShlNegate(Pow2(w - 1), w);
    ShrUnique(v, w, h, l);
    ShrUnique(v, w, -Pow2(w - 1), 0);
  }

  lemma LowParity(v: int, h: int, l: int)
    requires v == Shl(h, BITS) + l
    ensures v % 2 == l % 2
  {
    assert Shl(h, BITS) == 2 * Shl(h, BITS - 1);
  }

  // The next bit down, k times d being what it was.
  lemma PartialShift(n: int, d: int, b: nat, k: int, q: int, r: int) returns (k': int, r': int)
    requires Partial(n, d, b, k, q, r) && b > 0 && r < d
    ensures r' == 2 * r + Shr(n, b - 1) % 2 && Partial(n, d, b - 1, k', q, r')
    ensures 0 <= 2 * r < Pow2(BITS + BITS - 1)
  {
    BitBelow(n, b);
    k' := 2 * k;
    r' := 2 * r + Shr(n, b - 1) % 2;
    ShlAdd(k, k, b - 1);
    MulTwo(d, k);
    assert Shr(n, b - 1) == k' * d + r' <= n;
    MulSign(k', d);
  }

  lemma {:induction false} MulSign(k: int, d: int)
    requires k >= 0 && d > 0
    ensures 0 <= k <= k * d
    decreases k
  {
    if k > 0 {
      MulSign(k - 1, d);
      MulNext(k - 1, d);
    }
  }

  lemma MulNext(k: int, d: int)
    ensures (k + 1) * d == k * d + d
  {
  }

  // What a round of the second loop does to them.
  lemma PartialRound(n: int, d: int, b: nat, k: int, q: int, r: int, c: nat, q': int, r': int) returns (k': int)
    requires Partial(n, d, b, k, q, r) && b < 127
    requires r < d ==> b > 0 && c == b - 1 && q' == q && r' == Wrap(2 * r) + Shr(n, c) % 2
    requires r >= d ==> c == b && q' == BitSet(q, b) && r' == Wrap(r - d)
    ensures c < 127 && Partial(n, d, c, k', q', r') && (r < d || r' < r)
  {
    if r < d {
      ghost var r'';
      k', r'' := PartialShift(n, d, b, k, q, r);
      SignedFits(2 * r, BITS + BITS);
    } else {
      PartialTake(n, d, b, k, q, r);
      k' := k + 1;
    }
  }

  // Subtracting d once.
  lemma PartialTake(n: int, d: int, b: nat, k: int, q: int, r: int)
    requires Partial(n, d, b, k, q, r) && r >= d
    ensures BitChange(q, b, true) == Pow2(b) && Partial(n, d, b, k + 1, q + Pow2(b), r - d) && Wrap(r - d) == r - d
  {
    TakeBelow(q, b, k);
    MulNext(k, d);
    MulSign(k, d);
    SignedFits(r - d, BITS + BITS);
  }

  lemma TakeBelow(q: int, b: nat, k: int)
    requires q == Shl(k, b) && k % 2 == 0
    ensures BitChange(q, b, true) == Pow2(b) && q + Pow2(b) == Shl(k + 1, b)
  {
    ShrUnique(q, b, k, 0);
    ShlAdd(k, 1, b);
  }

  // ---------- the loops of div, on values ----------

  const LEAST: int := -Pow2(BITS + BITS - 1)  // the value that has no negative

  // operator< on values: it is their order, but between negative ones with the same high word.
  predicate ComesBefore(x: int, y: int) {
    if x < 0 && y < 0 && Shr(x, BITS) == Shr(y, BITS) then ToInt64(Low(x, BITS)) < ToInt64(Low(y, BITS)) else x < y
  }

  // What making a value positive gives.
  predicate IsMagnitude(n: int) {
    0 <= n < Pow2(BITS + BITS - 1) || n == LEAST
  }

  // Where the second loop stands: quotient and remainder so far, and the place of the last bit taken.
  datatype Loop = Loop(q: int, r: int, b: nat)

  // One round for the dividend n and the divisor d, or none if the loop ends.
  function NextLoop(n: int, d: int, s: Loop): Option<Loop> {
    if ComesBefore(s.r, d) then
      if s.b == 0 then None else Some(Loop(s.q, Wrap(2 * s.r) + Shr(n, s.b - 1) % 2, s.b - 1))
    else Some(Loop(BitSet(s.q, s.b), Wrap(s.r - d), s.b))
  }

  // There are 128 bits to set; only the sign bit makes a value wrap around.
  function BitSet(q: int, b: nat): int {
    if b < 127 then q + BitChange(q, b, true) else if b == 127 then Wrap(q + BitChange(q, b, true)) else q
  }

  // The first loop, with b bits still to be taken.
  function FirstLoop(n: int, d: int, r: int, b: nat): Loop
    decreases b, n
  {
    if b == 0 || !ComesBefore(r, d) then Loop(0, r, b) else FirstLoop(n, d, Wrap(2 * r) + Shr(n, b - 1) % 2, b - 1)
  }

  function Begin(n: int, d: int): Loop {
    FirstLoop(n, d, 0, 128)
  }

  // Rounds one after the other.
  ghost predicate Rounds(n: int, d: int, run: seq<Loop>) {
    run != [] && forall i {:trigger IsRound(n, d, run, i)} :: 0 <= i < |run| - 1 ==> IsRound(n, d, run, i)
  }

  predicate IsRound(n: int, d: int, run: seq<Loop>, i: int)
    requires 0 <= i < |run| - 1
  {
    NextLoop(n, d, run[i]) == Some(run[i + 1])
  }

  // From where the second loop starts.
  ghost predicate IsRun(n: int, d: int, run: seq<Loop>) {
    Rounds(n, d, run) && run[0] == Begin(n, d)
  }

  predicate Ends(n: int, d: int, run: seq<Loop>)
    requires run != []
  {
    NextLoop(n, d, run[|run| - 1]).None?
  }

  // A run that divides has come to s.
  ghost predicate Dividing(n: int, d: int, k: int, run: seq<Loop>, s: Loop) {
    Partial(n, d, s.b, k, s.q, s.r) && IsRun(n, d, run) && run[|run| - 1] == s
  }

  lemma RoundsGrow(n: int, d: int, run: seq<Loop>, s: Loop)
    requires Rounds(n, d, run) && NextLoop(n, d, run[|run| - 1]) == Some(s)
    ensures Rounds(n, d, run + [s])
  {
    var more := run + [s];
    forall i | 0 <= i < |more| - 1 ensures IsRound(n, d, more, i) {
      assert i < |run| - 1 ==> IsRound(n, d, run, i);
    }
  }

  lemma RoundBefore(n: int, d: int, s: Loop, run: seq<Loop>)
    requires Rounds(n, d, run) && NextLoop(n, d, s) == Some(run[0])
    ensures Rounds(n, d, [s] + run)
  {
    var more := [s] + run;
    forall i | 0 <= i < |more| - 1 ensures IsRound(n, d, more, i) {
      assert i > 0 ==> IsRound(n, d, run, i - 1);
    }
  }

  // The first loop stops at the leading bits that reach the divisor.
  lemma {:induction false} FirstReaches(n: int, d: int, r: int, b: nat) returns (s: int, c: nat)
    requires 0 < d <= n < Pow2(BITS + BITS - 1) && b <= 128 && 0 <= r == Shr(n, b) < 2 * d
    ensures FirstLoop(n, d, r, b) == Loop(0, s, c) && c < 127 && d <= s == Shr(n, c) < 2 * d
    decreases b
  {
    if r < d {
      FirstStep(n, d, r, b);
      s, c := FirstReaches(n, d, Shr(n, b - 1), b - 1);
    } else {
      FarShift(n);
      FirstDone(n, d, r, b);
      s, c := r, b;
    }
  }

  lemma FirstStep(n: int, d: int, r: int, b: nat)
    requires 0 < d <= n < Pow2(BITS + BITS - 1) && 0 <= r == Shr(n, b) < d
    ensures b > 0 && FirstLoop(n, d, r, b) == FirstLoop(n, d, Shr(n, b - 1), b - 1)
    ensures Shr(n, b - 1) == Wrap(2 * r) + Shr(n, b - 1) % 2 < 2 * d
  {
    assert b > 0;
    FirstFits(n, b, r, d);
  }

  // It is known by where it stops.
  lemma BeginsAt(n: int, d: int, r: int, b: nat)
    requires 0 < d <= n < Pow2(BITS + BITS - 1) && d <= r == Shr(n, b) < 2 * d
    ensures Begin(n, d) == Loop(0, r, b)
  {
    var s, c := FirstFromTop(n, d);
    OnePlace(n, d, b, c);
  }

  lemma FirstFromTop(n: int, d: int) returns (s: int, c: nat)
    requires 0 < d <= n < Pow2(BITS + BITS - 1)
    ensures Begin(n, d) == Loop(0, s, c) && c < 127 && d <= s == Shr(n, c) < 2 * d
  {
    FarShift(n);
    s, c := FirstReaches(n, d, 0, 128);
  }

  lemma OnePlace(n: nat, d: int, b: nat, c: nat)
    requires 0 < d <= Shr(n, b) < 2 * d && d <= Shr(n, c) < 2 * d
    ensures b == c
  {
    if b < c {
      ShiftFalls(n, b, c);
    } else if c < b {
      ShiftFalls(n, c, b);
    }
  }

  lemma ShiftFalls(n: nat, b: nat, c: nat)
    requires b < c
    ensures 2 * Shr(n, c) <= Shr(n, b)
  {
    ShrTwice(n, b, c - b);
    Halves(Shr(n, b), c - b);
  }

  lemma Halves(x: nat, k: nat)
    requires k > 0
    ensures 2 * Shr(x, k) <= x
  {
    assert Shr(x, k) == Shr(x / 2, k - 1) <= x / 2;
  }

  lemma FirstDone(n: int, d: int, r: int, b: nat)
    requires 0 <= r && d <= r
    ensures FirstLoop(n, d, r, b) == Loop(0, r, b)
  {
  }

  lemma FirstAtOnce(n: int, d: int)
    requires d < 0
    ensures Begin(n, d) == Loop(0, 0, 128)
  {
    FirstDone(n, d, 0, 128);
  }

  // A round leaves what is divided so far divided, and comes closer to the end.
  lemma PartialNext(n: int, d: int, k: int, s: Loop, t: Loop) returns (k': int)
    requires s.b < 127 && Partial(n, d, s.b, k, s.q, s.r) && NextLoop(n, d, s) == Some(t)
    ensures t.b < 127 && Partial(n, d, t.b, k', t.q, t.r) && (t.b < s.b || (t.b == s.b && t.r < s.r))
  {
    k' := PartialRound(n, d, s.b, k, s.q, s.r, t.b, t.q, t.r);
  }

  lemma DivideOn(n: int, d: int, k: int, run: seq<Loop>, s: Loop, t: Loop) returns (k': int, run': seq<Loop>)
    requires s.b < 127 && Dividing(n, d, k, run, s) && NextLoop(n, d, s) == Some(t)
    ensures t.b < 127 && Dividing(n, d, k', run', t) && (t.b < s.b || (t.b == s.b && 0 <= t.r < s.r))
  {
    k' := PartialNext(n, d, k, s, t);
    RoundsGrow(n, d, run, t);
    run' := run + [t];
  }

  // From there the second loop ends.
  lemma {:induction false} Ending(n: int, d: int, s: Loop, k: int) returns (run: seq<Loop>)
    requires s.b < 127 && Partial(n, d, s.b, k, s.q, s.r)
    ensures Rounds(n, d, run) && run[0] == s && Ends(n, d, run)
    decreases s.b, s.r
  {
    var next := NextLoop(n, d, s);
    if next.None? {
      run := [s];
    } else {
      var t := next.value;
      var k' := PartialNext(n, d, k, s, t);
      run := Ending(n, d, t, k');
      RoundBefore(n, d, s, run);
      run := [s] + run;
    }
  }

  // With the divisor -2^127, which is its own negative, the loops are entered whatever the dividend, no
  // round ends the second one, and the remainder goes back and forth between 0 and the divisor.
  lemma {:induction false} Endless(n: int, run: seq<Loop>, i: nat)
    requires IsRun(n, LEAST, run) && i < |run|
    ensures run[i] == Swinging(i)
  {
    if i == 0 {
      FirstAtOnce(n, LEAST);
    } else {
      Endless(n, run, i - 1);
      SwingsOn(n, run, i - 1);
    }
  }

  function Swinging(i: nat): Loop {
    Loop(0, if i % 2 == 0 then 0 else LEAST, 128)
  }

  lemma SwingsOn(n: int, run: seq<Loop>, i: nat)
    requires Rounds(n, LEAST, run) && i < |run| - 1 && run[i] == Swinging(i)
    ensures run[i + 1] == Swinging(i + 1)
  {
    assert IsRound(n, LEAST, run, i);
    SwingTo(n, run[i], run[i + 1]);
    assert LEAST < 0;
    OtherSide(i, run[i], run[i + 1]);
  }

  lemma OtherSide(i: nat, s: Loop, t: Loop)
    requires s == Swinging(i) && t == Loop(0, if s.r == 0 then LEAST else 0, 128)
    ensures t == Swinging(i + 1)
  {
  }

  lemma SwingTo(n: int, s: Loop, t: Loop)
    requires s.q == 0 && s.b == 128 && (s.r == 0 || s.r == LEAST) && NextLoop(n, LEAST, s) == Some(t)
    ensures t == Loop(0, if s.r == 0 then LEAST else 0, 128)
  {
    Swing(n, s);
  }

  lemma Swing(n: int, s: Loop)
    requires s.q == 0 && s.b == 128 && (s.r == 0 || s.r == LEAST)
    ensures NextLoop(n, LEAST, s) == Some(Loop(0, if s.r == 0 then LEAST else 0, 128))
  {
    EndlessStep(LEAST, s.r, Wrap(s.r - LEAST));
  }

  lemma NeverEnds(n: int, run: seq<Loop>)
    requires IsRun(n, LEAST, run)
    ensures !Ends(n, LEAST, run) && run[|run| - 1].b == 128
  {
    Endless(n, run, |run| - 1);
    Swing(n, run[|run| - 1]);
  }

  lemma AlwaysEnds(n: int, d: int) returns (run: seq<Loop>)
    requires 0 < d <= n < Pow2(BITS + BITS - 1)
    ensures IsRun(n, d, run) && Ends(n, d, run)
  {
    var r, b := FirstFromTop(n, d);
    run := Ending(n, d, Loop(0, r, b), 0);
  }

  // So division comes to an end exactly if the dividend is less than the divisor, which is answered at
  // once, or the divisor is not -2^127.
  lemma EndsExactly(n: int, d: int)
    requires IsMagnitude(n) && IsMagnitude(d) && d != 0
    ensures d == LEAST ==> !ComesBefore(n, d)
    ensures !ComesBefore(n, d) ==> ((exists run :: IsRun(n, d, run) && Ends(n, d, run)) <==> d != LEAST)
  {
    if d == LEAST {
      forall run | IsRun(n, d, run) ensures !Ends(n, d, run) {
        NeverEnds(n, run);
      }
    } else if !ComesBefore(n, d) {
      var run := AlwaysEnds(n, d);
    }
  }

  // The quotient of magnitudes fits, and so does its negative.
  lemma QuotientFits(n: int, d: int, q: int, r: int)
    requires 0 < d <= n < Pow2(BITS + BITS - 1) && n == q * d + r && 0 <= r < d && 0 <= q
    ensures Wrap(-q) == -q && Wrap(-r) == -r
  {
    MulSign(q, d);
    SignedFits(-q, BITS + BITS);
    SignedFits(-r, BITS + BITS);
  }

  lemma SignedQuotient(a: int, b: int, uq: int, ur: int, q: int, r: int)
    requires b != 0 && Abs(a) == uq * Abs(b) + ur && 0 <= ur < Abs(b)
    requires q == (if (a < 0) != (b < 0) then -uq else uq) && r == if a < 0 then -ur else ur
    ensures IsQuotient(a, b, q, r)
  {
    assert q * b == if a < 0 then -(uq * Abs(b)) else uq * Abs(b);
  }

  // ---------- text ----------

  function DigitChar(c: nat): char
    requires c < 37
  {
    if c > 9 then 'A' + (c - 10) as char else '0' + c as char
  }

  const DIGITS: string := "0123456789ABCDEFGHIJKLMNOPQRSTUVWXYZ"

  // Digits and capital letters; the 37th digit, which radix 37 needs, is the character behind Z.
  lemma DigitChars(c: nat)
    requires c < 37
    ensures DigitChar(c) == if c < 36 then DIGITS[c] else '['
  {
  }

  // The digits of a positive number; none for zero.
  function Digits(n: nat, radix: nat): string
    requires 2 <= radix <= 37
  {
    if n == 0 then "" else
      Quotients(n, radix);
      Digits(n / radix, radix) + [DigitChar(n % radix)]
  }

  lemma Quotients(n: nat, radix: nat)
    requires n > 0 && radix >= 2
    ensures 0 <= n / radix <= n / 2 < n && 0 <= n % radix < radix && n == n / radix * radix + n % radix
  {
    var q := n / radix;
    assert q * radix == q * (radix - 2) + 2 * q;
    assert q * (radix - 2) >= 0;
  }

  function Show(v: int, radix: nat): string
    requires 2 <= radix <= 37
  {
    if v == 0 then "0" else (if v < 0 then "-" else "") + Digits(Abs(v), radix)
  }

  // The digits as toString writes them: -2^127, which is not made positive, gives a single 0.
  function Written(v: int, radix: nat): string
    requires 2 <= radix <= 37
  {
    if v < 0 then "0" else Digits(v, radix)
  }

  function Text(v: int, radix: nat): string
    requires 2 <= radix <= 37
  {
    if v == -Pow2(BITS + BITS - 1) then "-0" else Show(v, radix)
  }

  // What a character is worth. A letter may be worth as much as the radix.
  function DigitOf(c: char, radix: nat): Option<nat> {
    if '0' <= c <= '9' && (c as int) < '0' as int + radix then Some(c as int - '0' as int)
    else if 'a' <= c && c as int <= 'a' as int + radix - 10 then Some(c as int - 'a' as int + 10)
    else if 'A' <= c && c as int <= 'A' as int + radix - 10 then Some(c as int - 'A' as int + 10)
    else None
  }

  // The number read from i on, up to the first character that is no digit.
  function Numeral(s: string, i: nat, radix: nat, acc: nat): nat
    requires i <= |s|
    decreases |s| - i
  {
    if i == |s| || DigitOf(s[i], radix).None? then acc
    else Numeral(s, i + 1, radix, acc * radix + DigitOf(s[i], radix).value)
  }

  function After(s: string, i: nat, c: char): (j: nat)
    requires i <= |s|
    ensures i <= j <= |s|
  {
    if i < |s| && s[i] == c then i + 1 else i
  }

  // A sign, then 0x for radix 16 or 0 for radix 8, then the digits.
  function Read(s: string): int {
    var i := After(s, 0, '-');
    var j := After(s, i, '0');
    var k := if j > i then After(s, j, 'x') else j;
    var n: int := Numeral(s, k, if k > j then 16 else if j > i then 8 else 10, 0);
    if i > 0 then -n else n
  }

  // One more digit at the end.
  lemma {:induction false} NumeralMore(s: string, i: nat, acc: nat, c: char)
    requires i <= |s| && '0' <= c <= '9' && forall k :: i <= k < |s| ==> '0' <= s[k] <= '9'
    ensures Numeral(s + [c], i, 10, acc) == Numeral(s, i, 10, acc) * 10 + (c as int - '0' as int)
    decreases |s| - i
  {
    var t := s + [c];
    if i < |s| {
      assert t[i] == s[i];
      NumeralMore(s, i + 1, acc * 10 + (s[i] as int - '0' as int), c);
    } else {
      assert t[i] == c;
      assert Numeral(t, i + 1, 10, acc * 10 + (c as int - '0' as int)) == acc * 10 + (c as int - '0' as int);
    }
  }

  lemma {:induction false} ReadDigits(front: string, n: nat)
    ensures Numeral(front + Digits(n, 10), |front|, 10, 0) == n
    ensures forall k :: 0 <= k < |Digits(n, 10)| ==> '0' <= Digits(n, 10)[k] <= '9'
    ensures n > 0 ==> Digits(n, 10) != "" && Digits(n, 10)[0] != '0'
    decreases n
  {
    if n == 0 {
      assert front + "" == front;
    } else {
      Quotients(n, 10);
      var d, c := Digits(n / 10, 10), DigitChar(n % 10);
      ReadDigits(front, n / 10);
      NumeralMore(front + d, |front|, 0, c);
      assert (front + d) + [c] == front + Digits(n, 10);
    }
  }

  // What is written in radix 10 is read back, for every number.
  lemma ReadShow(v: int)
    ensures Read(Show(v, 10)) == v
  {
    var s := Show(v, 10);
    if v == 0 {
      assert s == "0" && After(s, 0, '-') == 0 && After(s, 0, '0') == 1;
    } else {
      var front := if v < 0 then "-" else "";
      ReadDigits(front, Abs(v));
      var d := Digits(Abs(v), 10);
      assert s[|front|] == d[0];
      assert After(s, 0, '-') == |front|;
    }
  }

  // So what toString writes is read back, but for -2^127.
  lemma ReadText(v: int)
    ensures Read(Text(v, 10)) == v <==> v != -Pow2(BITS + BITS - 1)
  {
    if v == -Pow2(BITS + BITS - 1) {
      assert Read("-0") == 0;
    } else {
      ReadShow(v);
    }
  }

  // The digits of a radix: what set could be expected to read.
  function StrictDigitOf(c: char, radix: nat): Option<nat> {
    var d: int :=
      if '0' <= c <= '9' then c as int - '0' as int
      else if 'a' <= c <= 'z' then c as int - 'a' as int + 10
      else if 'A' <= c <= 'Z' then c as int - 'A' as int + 10
      else radix;
    if d < radix then Some(d) else None
  }

  // The first character from i on that is no digit of the radix.
  function DigitsEnd(s: string, i: nat, radix: nat): (j: nat)
    requires i <= |s|
    ensures i <= j <= |s| && (j == |s| || StrictDigitOf(s[j], radix).None?)
    ensures forall k :: i <= k < j ==> StrictDigitOf(s[k], radix).Some?
    decreases |s| - i
  {
    if i == |s| || StrictDigitOf(s[i], radix).None? then i else DigitsEnd(s, i + 1, radix)
  }

  // The number that the digits s[i..j] make after acc.
  function StrictNumeral(s: string, i: nat, j: nat, radix: nat, acc: nat): nat
    requires i <= j <= |s| && forall k :: i <= k < j ==> StrictDigitOf(s[k], radix).Some?
    decreases j - i
  {
    if i == j then acc else StrictNumeral(s, i + 1, j, radix, acc * radix + StrictDigitOf(s[i], radix).value)
  }

  // The letter that is worth as much as the radix.
  predicate IsRadixLetter(c: char, radix: nat) {
    radix >= 10 && (c as int == 'a' as int + radix - 10 || c as int == 'A' as int + radix - 10)
  }

  lemma DigitsAgree(c: char, radix: nat)
    requires radix in {8, 10, 16}
    ensures StrictDigitOf(c, radix).Some? ==> DigitOf(c, radix) == StrictDigitOf(c, radix)
    ensures StrictDigitOf(c, radix).None? ==> DigitOf(c, radix) == if IsRadixLetter(c, radix) then Some(radix) else None
  {
  }

  // Digits only make a number larger, and one worth the radix makes it larger than any digits before.
  lemma {:induction false} NumeralAtLeast(s: string, i: nat, radix: nat, acc: nat)
    requires i <= |s| && radix >= 1
    ensures Numeral(s, i, radix, acc) >= acc
    decreases |s| - i
  {
    if i < |s| && DigitOf(s[i], radix).Some? {
      NumeralAtLeast(s, i + 1, radix, acc * radix + DigitOf(s[i], radix).value);
      MulSign(acc, radix);
    }
  }

  lemma {:induction false} NumeralStops(s: string, i: nat, radix: nat, acc: nat)
    requires i <= |s| && radix in {8, 10, 16}
    ensures var j := DigitsEnd(s, i, radix);
      Numeral(s, i, radix, acc) == StrictNumeral(s, i, j, radix, acc) <==> !(j < |s| && IsRadixLetter(s[j], radix))
    decreases |s| - i
  {
    if i < |s| {
      DigitsAgree(s[i], radix);
      if StrictDigitOf(s[i], radix).Some? {
        NumeralStops(s, i + 1, radix, acc * radix + StrictDigitOf(s[i], radix).value);
      } else if IsRadixLetter(s[i], radix) {
        NumeralAtLeast(s, i + 1, radix, acc * radix + radix);
        MulSign(acc, radix);
      }
    }
  }

  // The radix that the prefix after a sign asks for, and where the digits start.
  function Prefix(s: string): (p: (nat, nat))
    ensures p.0 in {8, 10, 16} && p.1 <= |s|
  {
    var i := After(s, 0, '-');
    var j := After(s, i, '0');
    var k := if j > i then After(s, j, 'x') else j;
    (if k > j then 16 else if j > i then 8 else 10, k)
  }

  // The number whose digits are those of the radix.
  function ReadStrict(s: string): int {
    var (radix, k) := Prefix(s);
    var n: int := StrictNumeral(s, k, DigitsEnd(s, k, radix), radix, 0);
    if After(s, 0, '-') > 0 then -n else n
  }

  // Set reads this number exactly if the digits do not end at the letter worth the radix.
  lemma ReadStrictly(s: string)
    ensures var (radix, k) := Prefix(s);
      var j := DigitsEnd(s, k, radix);
      Read(s) == ReadStrict(s) <==> !(j < |s| && IsRadixLetter(s[j], radix))
  {
    var (radix, k) := Prefix(s);
    NumeralStops(s, k, radix, 0);
  }

  // In every radix with digits and letters enough, the digits written are those of the number.
  lemma {:induction false} DigitsMean(front: string, n: nat, radix: nat)
    requires 2 <= radix <= 36
    ensures var s := front + Digits(n, radix);
      (forall k :: |front| <= k < |s| ==> StrictDigitOf(s[k], radix).Some?) && StrictNumeral(s, |front|, |s|, radix, 0) == n
    decreases n
  {
    if n == 0 {
      assert front + "" == front;
    } else {
      Quotients(n, radix);
      DigitsMean(front, n / radix, radix);
      var s, c := front + Digits(n / radix, radix), DigitChar(n % radix);
      var t := s + [c];
      assert t == front + Digits(n, radix) && t[|s|] == c && forall k :: 0 <= k < |s| ==> t[k] == s[k];
      StrictSame(t, s, |front|, |s|, radix, 0);
      StrictLast(t, |front|, |s|, radix, 0);
    }
  }

  ghost predicate AllStrict(s: string, i: nat, j: nat, radix: nat) {
    j <= |s| && forall k {:trigger s[k]} :: i <= k < j ==> StrictDigitOf(s[k], radix).Some?
  }

  lemma {:induction false} StrictSame(s: string, t: string, i: nat, j: nat, radix: nat, acc: nat)
    requires i <= j && AllStrict(s, i, j, radix) && AllStrict(t, i, j, radix) && forall k :: i <= k < j ==> s[k] == t[k]
    ensures StrictNumeral(s, i, j, radix, acc) == StrictNumeral(t, i, j, radix, acc)
    decreases j - i
  {
    if i < j {
      assert s[i] == t[i];
      StrictSame(s, t, i + 1, j, radix, acc * radix + StrictDigitOf(s[i], radix).value);
    }
  }

  lemma {:induction false} StrictLast(s: string, i: nat, j: nat, radix: nat, acc: nat)
    requires i <= j && AllStrict(s, i, j + 1, radix)
    ensures StrictNumeral(s, i, j + 1, radix, acc) == StrictNumeral(s, i, j, radix, acc) * radix + StrictDigitOf(s[j], radix).value
    decreases j - i
  {
    if i < j {
      StrictLast(s, i + 1, j, radix, acc * radix + StrictDigitOf(s[i], radix).value);
    } else {
      var last := acc * radix + StrictDigitOf(s[j], radix).value;
      assert StrictNumeral(s, j + 1, j + 1, radix, last) == last;
    }
  }

  // Behind its prefix a number in radix 8 or 16 is read back, too.
  lemma ReadPrefixed(v: int)
    ensures Read((if v < 0 then "-0" else "0") + Digits(Abs(v), 8)) == v
    ensures Read((if v < 0 then "-0x" else "0x") + Digits(Abs(v), 16)) == v
  {
    PrefixedDigits(v, if v < 0 then "-0" else "0", 8);
    PrefixedDigits(v, if v < 0 then "-0x" else "0x", 16);
  }

  lemma PrefixedDigits(v: int, front: string, radix: nat)
    requires front == (if v < 0 then "-0" else "0") + (if radix == 8 then "" else "x") && (radix == 8 || radix == 16)
    ensures Read(front + Digits(Abs(v), radix)) == v
  {
    var s := front + Digits(Abs(v), radix);
    DigitsMean(front, Abs(v), radix);
    assert s[0] == front[0] && (v < 0 ==> s[1] == '0') && (radix == 16 ==> s[|front| - 1] == 'x');
    assert After(s, 0, '-') == (if v < 0 then 1 else 0);
    assert radix == 8 && |front| < |s| ==> s[|front|] != 'x';
    assert Prefix(s) == (radix, |front|);
    StrictEnd(s, |front|, radix);
    ReadStrictly(s);
  }

  lemma {:induction false} StrictEnd(s: string, i: nat, radix: nat)
    requires i <= |s| && forall k :: i <= k < |s| ==> StrictDigitOf(s[k], radix).Some?
    ensures DigitsEnd(s, i, radix) == |s|
    decreases |s| - i
  {
    if i < |s| {
      StrictEnd(s, i + 1, radix);
    }
  }

  // A text without digits that is read as ten.
  lemma ReadLetter()
    ensures Read("a") == 10 && ReadStrict("a") == 0
  {
    assert After("a", 0, '-') == 0 && Numeral("a", 1, 10, 10) == 10;
  }

  // A remainder by a small number is its own low word.
  lemma DigitParts(m: int, radix: nat, q: int, r: int, h: Int64, l: UInt64)
    requires 2 <= radix <= 37 && m > 0 && IsQuotient(m, radix, q, r) && r == Shl(h, BITS) + l
    ensures q == m / radix && r == m % radix && l == r && 0 <= q <= m / 2
  {
    Quotients(m, radix);
    QuotientUnique(m, radix, q, r, m / radix, m % radix);
    WordSizes(0);
    SmallWord(r, h, l, BITS);
  }

  lemma MulNat(a: nat, b: nat)
    ensures a * b >= 0
  {
  }

  // Multiplying and adding may be wrapped in between.
  lemma NextValue(acc: int, radix: int, digit: int)
    ensures Wrap(Wrap(Wrap(acc) * radix) + digit) == Wrap(acc * radix + digit)
  {
    var d := SignedMoves(acc, BITS + BITS);
    ShlIsMul(d, BITS + BITS);
    ShlIsMul(d * radix, BITS + BITS);
    MulSwap(Wrap(acc), d, Pow2(BITS + BITS), radix);
    SignedSame(acc * radix, Wrap(acc) * radix, BITS + BITS, d * radix);
    WrapSum(digit, acc * radix, digit + acc * radix);
  }

  lemma MulSwap(x: int, d: int, p: int, r: int)
    ensures (x + d * p) * r == x * r + (d * r) * p
  {
    Distribute(r, x, d * p);
    MulThree(d, p, r);
    MulThree(d, r, p);
  }

  lemma WrapNegative(n: int)
    ensures Wrap(-Wrap(n)) == Wrap(-n)
  {
    var d := SignedMoves(n, BITS + BITS);
    ShlNegate(d, BITS + BITS);
    SignedSame(-Wrap(n), -n, BITS + BITS, d);
  }

  lemma ZeroValue(v: int, h: Int64, l: UInt64)
    requires v == Shl(h, BITS) + l
    ensures h == 0 && l == 0 <==> v == 0
  {
    if v == 0 {
      SmallWord(v, h, l, BITS);
    }
  }

  lemma SmallWord(v: int, h: int, l: int, w: nat)
    requires IsWord(l, w) && v == Shl(h, w) + l && IsWord(v, w)
    ensures h == 0 && l == v
  {
    ShrUnique(v, w, h, l);
    SmallShr(v, w);
  }

  // ++hi
  function CarryUp(h: int): Int64 {
    ToInt64(h + 1)
  }

  // A value and its words.
  class Int128 {
    var lo: UInt64
    var hi: Int64

    function Value(): int
      reads this
    {
      Shl(hi, BITS) + lo
    }

    constructor (lo: UInt64, hi: Int64)
      ensures this.lo == lo && this.hi == hi
    {
      this.lo, this.hi := lo, hi;
    }

    constructor Copy(a: Int128)
      ensures Value() == a.Value()
    {
      lo, hi := a.lo, a.hi;
    }

    method Negated() returns (r: Int128)
      ensures fresh(r) && r.Value() == Wrap(-Value())
    {
      var h: int, l: int := hi, lo;
      if l == 0 {
        r := new Int128(0, ToInt64(-h));
      } else {
        r := new Int128(ToUInt64(-l), -h - 1);
      }
      NegateWords(-Value(), h, l, r.hi, r.lo, BITS);
    }

    // +=
    method Add(b: Int128)
      modifies this
      ensures Value() == Wrap(old(Value() + b.Value()))
    {
      ghost var sum := Value() + b.Value();
      AddPair(b.lo, b.hi, sum);
    }

    // Adds the words, and the carry out of the low ones.
    method AddPair(bl: UInt64, bh: Int64, ghost sum: int)
      requires sum == Value() + (Shl(bh, BITS) + bl)
      modifies this
      ensures Value() == Wrap(sum)
    {
      var r: int, l: int := hi, lo;
      var low := ToUInt64(l + bl);
      var high := ToInt64(r + bh);
      var top := if low < l then CarryUp(high) else high;
      AddWords(sum, r, l, bh, bl, low, high, top, BITS);
      lo, hi := low, top;
    }

    // -=
    method Subtract(b: Int128)
      modifies this
      ensures Value() == Wrap(old(Value() - b.Value()))
    {
      ghost var x, y := Value(), b.Value();
      var negative := b.Negated();
      Add(negative);
      WrapSum(x, -y, x - y);
    }

    // >>=
    method ShiftRight(n: nat)
      modifies this
      ensures Value() == Shr(old(Value()), n)
    {
      ghost var v := Value();
      var h: int, l: int := hi, lo;
      if n >= 128 {
        hi := if h < 0 then -1 else 0;
        lo := ToUInt64(hi);
        RightFar(v, h, l, n, hi, lo, BITS);
      } else if n >= 64 {
        lo := ToUInt64(Shr(h, n - BITS));
        hi := if h < 0 then -1 else 0;
        RightWord(v, h, l, n, hi, lo, BITS);
      } else if n > 0 {
        ShiftRightBits(n);
      }
    }

    method ShiftRightBits(n: nat)
      requires 0 < n < BITS
      modifies this
      ensures Value() == Shr(old(Value()), n)
    {
      ghost var v := Value();
      var h: int, l: int := hi, lo;
      ShrSigned(h, n, BITS);
      lo := Shr(l, n);
      var mask := Pow2(n) - 1;
      var mid := And(ToUInt64(h), mask);
      Entering(h, l, n, mid, BITS);
      lo := Or(lo, ToUInt64(Shl(mid, BITS - n)));
      hi := Shr(h, n);
      RightBits(v, h, l, n, mid, lo, BITS);
    }

    // <<=
    method ShiftLeft(n: nat)
      modifies this
      ensures Value() == Wrap(Shl(old(Value()), n))
    {
      ghost var v := Value();
      var h: int, l: int := hi, lo;
      if n >= 128 {
        lo, hi := 0, 0;
        LeftFar(v, n, BITS);
      } else if n >= 64 {
        hi := ToInt64(ToUInt64(Shl(l, n - BITS)));
        lo := 0;
        LeftWord(v, Shl(v, n), h, l, n, hi, BITS);
      } else if n > 0 {
        ShiftLeftBits(n);
      } else {
        ValueFits(h, l, BITS);
        SignedFits(v, BITS + BITS);
      }
    }

    method ShiftLeftBits(n: nat)
      requires 0 < n < BITS
      modifies this
      ensures Value() == Wrap(Shl(old(Value()), n))
    {
      ghost var v := Value();
      var h: int, l: int := hi, lo;
      var x := Shl(h, n);
      hi := ToInt64(x);
      ghost var high: int := hi;
      Pow2Grows(BITS - n, BITS);
      var mask := Pow2(BITS) - 1 - (Pow2(BITS - n) - 1);
      var carry := And(l, mask);
      Carry(l, n, BITS - n, mask, carry, BITS);
      hi := ToInt64(Or(ToUInt64(hi), Shr(carry, BITS - n)));
      lo := ToUInt64(Shl(l, n));
      LeftBits(v, Shl(v, n), h, l, n, x, Shr(l, BITS - n), high, hi, lo, BITS);
    }

    // The bit n of the value, the sign bit being repeated.
    method TestBit(n: nat) returns (r: bool)
      ensures r <==> Shr(Value(), n) % 2 == 1
    {
      ghost var v := Value();
      var h: int, l: int := hi, lo;
      if n >= 128 {
        FarBit(v, h, l, n, BITS);
        return h < 0;
      }
      BitWords(v, h, l, n, BITS);
      if n < 64 {
        AndOne(l, n);
        r := And(l, Pow2(n)) != 0;
      } else {
        AndOne(ToUInt64(h), n - BITS);
        r := And(ToUInt64(h), Pow2(n - BITS)) != 0;
      }
    }

    // Sets or clears the bit n; only the sign bit, 127, makes the value wrap around.
    method SetBit(n: nat, val: bool)
      modifies this
      ensures Value() == if n < 128 then Wrap(old(Value() + BitChange(Value(), n, val))) else old(Value())
      ensures n < 127 ==> Value() == old(Value() + BitChange(Value(), n, val))
    {
      if n < 64 {
        SetLowBit(n, val);
      } else if n < 128 {
        SetHighBit(n, val);
      }
    }

    method SetLowBit(n: nat, val: bool)
      requires n < BITS
      modifies this
      ensures Value() == old(Value() + BitChange(Value(), n, val)) == Wrap(old(Value() + BitChange(Value(), n, val)))
    {
      ghost var v := Value();
      BitWords(v, hi, lo, n, BITS);
      lo := WithBit(lo, n, val);
      ValueFits(hi, lo, BITS);
      SignedFits(Value(), BITS + BITS);
    }

    method SetHighBit(n: nat, val: bool)
      requires BITS <= n < BITS + BITS
      modifies this
      ensures Value() == Wrap(old(Value() + BitChange(Value(), n, val)))
      ensures n < 127 ==> Value() == old(Value() + BitChange(Value(), n, val))
    {
      ghost var v, h, l, y := Value(), hi, lo, Value() + BitChange(Value(), n, val);
      var m := n - BITS;
      var x := ToUInt64(hi);
      var t := WithBit(x, m, val);
      hi := ToInt64(t);
      SetHighWords(v, h, l, n, m, val, x, t, hi, y, BITS);
      assert Value() == Wrap(y) && (n < 127 ==> Value() == y);
    }

    predicate IsZero()
      reads this
    {
      hi == 0 && lo == 0
    }

    // *=
    method Multiply(b: Int128)
      modifies this
      ensures Value() == Wrap(old(Value() * b.Value()))
    {
      ghost var x, y := Value(), b.Value();
      SmallProducts(hi, lo, b.hi, b.lo);
      if b.IsZero() {
        lo, hi := 0, 0;
        return;
      }
      if b.hi == 0 && b.lo == 1 {
        return;
      }
      MultiplyBits(b);
    }

    // Shift and add.
    method MultiplyBits(b: Int128)
      modifies this
      ensures Value() == Wrap(old(Value() * b.Value()))
    {
      ghost var x, y := Value(), b.Value();
      var a := new Int128.Copy(this);
      var t := new Int128.Copy(b);
      lo, hi := 0, 0;
      MulNone(x, y);
      assert Value() == 0;
      for i := 0 to 128
        invariant fresh(a) && fresh(t) && a != t && a.Value() == x && t.Value() == Shr(y, i)
        invariant Value() == Wrap(x * Low(y, i))
      {
        AddBit(a, t, i, x, y);
      }
      MulAll(x, y, 128);
    }

    method AddBit(a: Int128, t: Int128, i: nat, ghost x: int, ghost y: int)
      requires a != t && a != this && t != this
      requires a.Value() == x && t.Value() == Shr(y, i) && Value() == Wrap(x * Low(y, i))
      modifies this, t
      ensures t.Value() == Shr(y, i + 1) && Value() == Wrap(x * Low(y, i + 1))
    {
      MulStep(x, y, i);
      LowestBit(t.Value(), t.hi, t.lo);
      if And(t.lo, 1) != 0 {
        var s := new Int128.Copy(a);
        s.ShiftLeft(i);
        WrapBoth(x * Low(y, i), Shl(x, i), x * Low(y, i + 1));
        Add(s);
      }
      t.ShiftRight(1);
    }

    // operator<
    static predicate Less(a: Int128, b: Int128)
      reads a, b
    {
      if a.hi == b.hi then (if a.hi < 0 then ToInt64(a.lo) < ToInt64(b.lo) else a.lo < b.lo)
      else a.hi < b.hi
    }

    // operator< is the order of the values - except for two negative numbers of the same high
    // word, of whose low words just one has its top bit set.
    static lemma LessExactly(a: Int128, b: Int128)
      ensures (Less(a, b) <==> a.Value() < b.Value()) <==>
        !(a.hi == b.hi && a.hi < 0 && (a.lo < Pow2(BITS - 1)) != (b.lo < Pow2(BITS - 1)))
    {
      ValueOrder(a.hi, a.lo, b.hi, b.lo, BITS);
      SignedWord(a.lo, BITS);
      SignedWord(b.lo, BITS);
    }

    // Values that operator< gets wrong: -2^64 is below -2^63.
    static lemma LessFails(a: Int128, b: Int128)
      requires a.hi == -1 && a.lo == 0 && b.hi == -1 && b.lo == Pow2(BITS - 1)
      ensures a.Value() < b.Value() && !Less(a, b) && Less(b, a)
    {
      LessExactly(a, b);
      LessExactly(b, a);
    }

    // The value is not the one that has no negative.
    predicate HasNegative()
      reads this
    {
      Value() != -Pow2(BITS + BITS - 1)
    }

    // The value made positive; -2^127 stays as it is.
    method Magnitude() returns (r: Int128)
      ensures fresh(r) && r.Value() == if HasNegative() then Abs(Value()) else Value()
      ensures -Pow2(BITS + BITS - 1) <= r.Value() < Pow2(BITS + BITS - 1)
    {
      SignOfValue(Value(), hi, lo);
      ValueFits(hi, lo, BITS);
      if HasNegative() {
        NegativeFits(Value(), hi, lo);
      } else {
        LeastNegated(Value(), BITS + BITS);
      }
      if hi < 0 {
        r := Negated();
      } else {
        r := new Int128.Copy(this);
      }
    }

    // Restoring division. The dividend -2^127 is less than any divisor and comes back as the remainder; with the
    // divisor -2^127 nothing comes back (see EndsExactly).
    method Div(divisor: Int128, remainder: Int128) returns (q: Int128)
      requires divisor.Value() != 0 && divisor.HasNegative()
      modifies remainder
      ensures fresh(q)
      ensures IsQuotient(old(Value()), old(divisor.Value()), q.Value(), remainder.Value()) <==> old(HasNegative())
      ensures old(!HasNegative()) ==> q.Value() == 0 && remainder.Value() == old(Value())
    {
      ghost var a, b := Value(), divisor.Value();
      ghost var sound := HasNegative();
      var negative, opposite := hi < 0, (hi < 0) != (divisor.hi < 0);
      SignOfValue(a, hi, lo);
      SignOfValue(b, divisor.hi, divisor.lo);
      var ds := divisor.Magnitude();
      var dd := Magnitude();
      LessPositive(dd, ds);
      if Less(dd, ds) {
        q := new Int128(0, 0);
        remainder.lo, remainder.hi := lo, hi;
        assert IsQuotient(a, b, 0, a) <==> sound;
        return;
      }
      var r;
      q, r := Divide(dd, ds);
      q, r := Correct(q, r, negative, opposite, a, b);
      remainder.lo, remainder.hi := r.lo, r.hi;
    }

    // Gives quotient and remainder of the magnitudes their signs.
    static method Correct(uq: Int128, ur: Int128, negative: bool, opposite: bool, ghost a: int, ghost b: int)
      returns (q: Int128, r: Int128)
      requires b != 0 && (negative <==> a < 0) && (opposite <==> (a < 0) != (b < 0))
      requires Abs(b) <= Abs(a) < Pow2(BITS + BITS - 1) && 0 <= uq.Value() && 0 <= ur.Value() < Abs(b)
      requires Abs(a) == uq.Value() * Abs(b) + ur.Value()
      ensures (q == uq || fresh(q)) && IsQuotient(a, b, q.Value(), r.Value())
    {
      QuotientFits(Abs(a), Abs(b), uq.Value(), ur.Value());
      q, r := uq, ur;
      if opposite {
        q := uq.Negated();
      }
      if negative {
        r := ur.Negated();
      }
      SignedQuotient(a, b, uq.Value(), ur.Value(), q.Value(), r.Value());
    }

    static lemma LessIsBefore(a: Int128, b: Int128)
      ensures Less(a, b) <==> ComesBefore(a.Value(), b.Value())
    {
      ShrUnique(a.Value(), BITS, a.hi, a.lo);
      ShrUnique(b.Value(), BITS, b.hi, b.lo);
      ValueOrder(a.hi, a.lo, b.hi, b.lo, BITS);
    }

    static lemma LessPositive(a: Int128, b: Int128)
      requires a.Value() >= 0 || b.Value() >= 0
      ensures Less(a, b) <==> a.Value() < b.Value()
    {
      LessExactly(a, b);
      SignOfValue(a.Value(), a.hi, a.lo);
      SignOfValue(b.Value(), b.hi, b.lo);
    }

    // The two loops of div, on magnitudes.
    static method Divide(dd: Int128, ds: Int128) returns (q: Int128, r: Int128)
      requires 0 < ds.Value() <= dd.Value()
      ensures fresh(q) && fresh(r) && q != r
      ensures dd.Value() == q.Value() * ds.Value() + r.Value() && 0 <= r.Value() < ds.Value() && 0 <= q.Value()
    {
      ghost var run, k;
      q, r, run, k := Loops(dd, ds);
      assert Shr(dd.Value(), 0) == dd.Value() && Shl(k, 0) == k;
    }

    static method Loops(dd: Int128, ds: Int128) returns (q: Int128, r: Int128, ghost run: seq<Loop>, ghost k: int)
      requires 0 < ds.Value() <= dd.Value()
      ensures fresh(q) && fresh(r) && q != r
      ensures IsRun(dd.Value(), ds.Value(), run) && Ends(dd.Value(), ds.Value(), run)
      ensures run[|run| - 1] == Loop(q.Value(), r.Value(), 0)
      ensures Partial(dd.Value(), ds.Value(), 0, k, q.Value(), r.Value()) && r.Value() < ds.Value()
    {
      var b;
      r, b := FirstBits(dd, ds);
      q := new Int128(0, 0);
      ghost var n, d := dd.Value(), ds.Value();
      k := 0;
      ValueFits(dd.hi, dd.lo, BITS);
      BeginsAt(n, d, r.Value(), b);
      run := [Loop(0, r.Value(), b)];
      while true
        invariant fresh(q) && fresh(r) && q != r && 0 <= b < 127
        invariant Dividing(n, d, k, run, Loop(q.Value(), r.Value(), b))
        decreases b, r.Value()
      {
        var end;
        end, b, k, run := NextRound(dd, ds, q, r, b, n, k, run);
        if end {
          break;
        }
      }
    }

    static method NextRound(dd: Int128, ds: Int128, q: Int128, r: Int128, b: nat, ghost n: int, ghost k: int, ghost run: seq<Loop>)
      returns (end: bool, c: nat, ghost k': int, ghost run': seq<Loop>)
      requires q != r && q !in {dd, ds} && r !in {dd, ds} && b < 127
      requires n == dd.Value() && Dividing(n, ds.Value(), k, run, Loop(q.Value(), r.Value(), b))
      modifies q, r
      ensures c < 127 && Dividing(n, ds.Value(), k', run', Loop(q.Value(), r.Value(), c))
      ensures end ==> c == 0 && r.Value() < ds.Value()
      ensures !end ==> c < b || (c == b && 0 <= r.Value() < old(r.Value()))
      ensures end ==> Ends(n, ds.Value(), run')
    {
      ghost var d, s := ds.Value(), Loop(q.Value(), r.Value(), b);
      end, c := Round(dd, ds, q, r, b);
      k', run' := k, run;
      if !end {
        ghost var t := Loop(q.Value(), r.Value(), c);
        k', run' := DivideOn(n, d, k, run, s, t);
      }
    }

    // One round of the second loop, for any values.
    static method Round(dd: Int128, ds: Int128, q: Int128, r: Int128, b: nat) returns (end: bool, c: nat)
      requires q != r && q !in {dd, ds} && r !in {dd, ds} && b <= 128
      modifies q, r
      ensures var next := old(NextLoop(dd.Value(), ds.Value(), Loop(q.Value(), r.Value(), b)));
        if end then next.None? && c == b && q.Value() == old(q.Value()) && r.Value() == old(r.Value())
        else next == Some(Loop(q.Value(), r.Value(), c))
    {
      end, c := false, b;
      LessIsBefore(r, ds);
      if Less(r, ds) {
        if b == 0 {
          end := true;
          return;
        }
        c := b - 1;
        r.TakeBit(dd, c);
      } else {
        TakeOut(ds, q, r, b);
      }
    }

    static method TakeOut(ds: Int128, q: Int128, r: Int128, b: nat)
      requires q != r && ds != q && ds != r
      modifies q, r
      ensures q.Value() == BitSet(old(q.Value()), b) && r.Value() == Wrap(old(r.Value() - ds.Value()))
    {
      r.Subtract(ds);
      q.MarkBit(b);
    }

    method MarkBit(b: nat)
      modifies this
      ensures Value() == BitSet(old(Value()), b)
    {
      SetBit(b, true);
    }

    // Shifts in the bit n of dd.
    method TakeBit(dd: Int128, n: nat)
      requires this != dd && n < 128
      modifies this
      ensures Value() == Wrap(2 * old(Value())) + Shr(dd.Value(), n) % 2
    {
      ghost var v := Value();
      ShiftLeft(1);
      assert Shl(v, 1) == 2 * v;
      EvenWrap(v);
      var one := dd.TestBit(n);
      LowParity(Value(), hi, lo);
      if one {
        lo := WithBit(lo, 0, true);
      }
    }

    // The first loop of div: shifts bits of dd into r until it reaches ds.
    static method FirstBits(dd: Int128, ds: Int128) returns (r: Int128, b: nat)
      requires 0 < ds.Value() <= dd.Value() || ds.Value() < 0
      ensures fresh(r)
      ensures ds.Value() > 0 ==> b < 127 && ds.Value() <= r.Value() == Shr(dd.Value(), b) < 2 * ds.Value()
      ensures ds.Value() < 0 ==> b == 128 && r.Value() == 0
    {
      ghost var n, d := dd.Value(), ds.Value();
      r := new Int128(0, 0);
      var i: int := 127;
      ValueFits(dd.hi, dd.lo, BITS);
      if d > 0 {
        FarShift(n);
      }
      LessPositive(r, ds);
      while Less(r, ds)
        invariant fresh(r) && -1 <= i <= 127 && (Less(r, ds) <==> r.Value() < d)
        invariant if d > 0 then 0 <= r.Value() == Shr(n, i + 1) < 2 * d else i == 127 && r.Value() == 0
        decreases i
      {
        i := r.NextBit(dd, i, d);
        LessPositive(r, ds);
      }
      b := i + 1;
    }

    method NextBit(dd: Int128, i: int, ghost d: int) returns (j: int)
      requires this != dd && -1 <= i <= 127 && d <= dd.Value() < Pow2(BITS + BITS - 1)
      requires 0 <= Value() == Shr(dd.Value(), i + 1) < d
      modifies this
      ensures 0 <= i && j == i - 1 && 0 <= Value() == Shr(dd.Value(), i) < 2 * d
    {
      ghost var v := Value();
      assert i >= 0;
      FirstFits(dd.Value(), i + 1, v, d);
      TakeBit(dd, i);
      j := i - 1;
    }

    // The first rounds of div by -2^127, as many as asked for.
    method DivRounds(divisor: Int128, rounds: nat) returns (q: Int128, r: Int128, b: nat, ghost n: int, ghost run: seq<Loop>)
      requires !divisor.HasNegative()
      ensures n == (if HasNegative() then Abs(Value()) else Value()) && IsRun(n, LEAST, run) && |run| == rounds + 1
      ensures run[rounds] == Loop(q.Value(), r.Value(), b)
    {
      var ds := divisor.Magnitude();
      var dd := Magnitude();
      n := dd.Value();
      r, b := FirstBits(dd, ds);
      FirstAtOnce(n, LEAST);
      q := new Int128(0, 0);
      run := [Loop(0, r.Value(), b)];
      for i := 0 to rounds
        invariant fresh(q) && fresh(r) && q !in {r, dd, ds} && r !in {dd, ds} && ds.Value() == LEAST && dd.Value() == n
        invariant IsMagnitude(n) && IsRun(n, LEAST, run) && |run| == i + 1 && run[i] == Loop(q.Value(), r.Value(), b)
      {
        b, run := EndlessRound(dd, ds, q, r, b, n, run);
      }
    }

    static method EndlessRound(dd: Int128, ds: Int128, q: Int128, r: Int128, b: nat, ghost n: int, ghost run: seq<Loop>)
      returns (c: nat, ghost run': seq<Loop>)
      requires q != r && q !in {dd, ds} && r !in {dd, ds} && ds.Value() == LEAST && dd.Value() == n && IsMagnitude(n)
      requires IsRun(n, LEAST, run) && run[|run| - 1] == Loop(q.Value(), r.Value(), b)
      modifies q, r
      ensures IsRun(n, LEAST, run') && |run'| == |run| + 1 && run'[|run|] == Loop(q.Value(), r.Value(), c)
    {
      NeverEnds(n, run);
      var end;
      end, c := Round(dd, ds, q, r, b);
      RoundsGrow(n, LEAST, run, Loop(q.Value(), r.Value(), c));
      run' := run + [Loop(q.Value(), r.Value(), c)];
    }

    // /=
    method DivideBy(b: Int128) returns (ghost r: int)
      requires b.Value() != 0 && b.HasNegative()
      modifies this
      ensures IsQuotient(old(Value()), old(b.Value()), Value(), r) <==> old(HasNegative())
      ensures old(!HasNegative()) ==> Value() == 0
    {
      var dummy := new Int128(0, 0);
      var q := Div(b, dummy);
      r := dummy.Value();
      lo, hi := q.lo, q.hi;
    }

    // %=, where the remainder is written over the dividend.
    method Modulo(b: Int128) returns (ghost q: int)
      requires b.Value() != 0 && b.HasNegative()
      modifies this
      ensures IsQuotient(old(Value()), old(b.Value()), q, Value()) <==> old(HasNegative())
      ensures old(!HasNegative()) ==> Value() == old(Value())
    {
      var quotient := Div(b, this);
      q := quotient.Value();
    }

    // The buffer of 256 characters is long enough for any radix.
    method ToString(radix: nat) returns (s: string)
      ensures s == if Value() == 0 then "0" else if 2 <= radix <= 37 then Text(Value(), radix) else "(invalid radix)"
    {
      ZeroValue(Value(), hi, lo);
      if IsZero() {
        return "0";
      }
      if radix < 2 || radix > 37 {
        return "(invalid radix)";
      }
      var sz := new char[256];
      SignOfValue(Value(), hi, lo);
      var negative := hi < 0;
      var ii := Magnitude();
      var i := WriteDigits(sz, ii, radix);
      if negative {
        i := i - 1;
        sz[i] := '-';
        assert sz[i..255] == "-" + sz[i + 1..255];
      }
      s := sz[i..255];
    }

    // Writes the digits of a positive number, or the 0 for the one that stays negative, down to sz[i].
    static method WriteDigits(sz: array<char>, value: Int128, radix: nat) returns (i: nat)
      requires sz.Length == 256 && 2 <= radix <= 37 && (value.Value() >= 0 || !value.HasNegative())
      modifies sz
      ensures 128 <= i <= 255 && sz[i..255] == Written(value.Value(), radix)
    {
      ghost var n := value.Value();
      var ii := value;
      i := 255;
      var aux := Int128.Small(radix);
      assert Written(n, radix) + sz[255..255] == Written(n, radix);
      ZeroValue(n, ii.hi, ii.lo);
      ValueFits(ii.hi, ii.lo, BITS);
      while !ii.IsZero() && i > 0
        invariant ii != aux && aux.Value() == radix
        invariant 128 <= i <= 255 && ii.Value() < Pow2(i - 128) && (ii.IsZero() <==> ii.Value() == 0)
        invariant ii.Value() < 0 ==> i == 255 && !ii.HasNegative()
        invariant Written(n, radix) == Written(ii.Value(), radix) + sz[i..255]
        decreases i
      {
        Pow2Grows(i - 128, BITS + BITS - 1);
        var c;
        ii, c := NextDigit(ii, aux, radix);
        i := i - 1;
        PutDigit(sz, i, DigitChar(c), Written(ii.Value(), radix));
      }
    }

    static method PutDigit(sz: array<char>, i: nat, c: char, ghost front: string)
      requires i < 255 < sz.Length
      modifies sz
      ensures front + sz[i..255] == (front + [c]) + old(sz[i + 1..255])
    {
      ghost var tail := sz[i + 1..255];
      sz[i] := c;
      assert sz[i..255] == [c] + tail;
      Assoc(front, [c], tail);
    }

    static method NextDigit(ii: Int128, aux: Int128, radix: nat) returns (q: Int128, c: nat)
      requires 2 <= radix <= 37 && aux.Value() == radix && ii.Value() < Pow2(BITS + BITS - 1)
      requires ii.Value() > 0 || !ii.HasNegative()
      ensures fresh(q) && c < radix && (q.IsZero() <==> q.Value() == 0)
      ensures ii.Value() > 0 ==> 0 <= q.Value() == ii.Value() / radix <= ii.Value() / 2 && c == ii.Value() % radix
      ensures ii.Value() < 0 ==> q.Value() == 0 && c == 0
      ensures Written(ii.Value(), radix) == Written(q.Value(), radix) + [DigitChar(c)]
    {
      var r := new Int128(0, 0);
      q := ii.Div(aux, r);
      if ii.Value() > 0 {
        DigitParts(ii.Value(), radix, q.Value(), r.Value(), r.hi, r.lo);
      } else {
        LeastWords(r.Value(), r.hi, r.lo, BITS);
      }
      ZeroValue(q.Value(), q.hi, q.lo);
      c := r.lo;
    }

    static method Small(n: nat) returns (r: Int128)
      requires n < 0x1_0000_0000
      ensures fresh(r) && r.Value() == n
    {
      WordSizes(0);
      r := new Int128(n, 0);
    }

    // Set sets the value to what the text says.
    method Set(sz: string)
      modifies this
      ensures Value() == Wrap(Read(sz))
    {
      lo, hi := 0, 0;
      var i := 0;
      var radix, minus := 10, false;
      if i < |sz| && sz[i] == '-' {
        i := i + 1;
        minus := true;
      }
      if i < |sz| && sz[i] == '0' {
        radix := 8;
        i := i + 1;
        if i < |sz| && sz[i] == 'x' {
          radix := 16;
          i := i + 1;
        }
      }
      ghost var n: int := Numeral(sz, i, radix, 0);
      assert Read(sz) == if minus then -n else n;
      SetDigits(sz, i, radix);
      if minus {
        WrapNegative(n);
        Oppose();
      }
    }

    // Int128(0) - *this
    method Oppose()
      modifies this
      ensures Value() == Wrap(-old(Value()))
    {
      var positive := new Int128.Copy(this);
      lo, hi := 0, 0;
      Subtract(positive);
    }

    method SetDigits(sz: string, start: nat, radix: nat)
      requires start <= |sz| && radix < 0x1_0000 && Value() == 0
      modifies this
      ensures Value() == Wrap(Numeral(sz, start, radix, 0))
    {
      var i := start;
      ghost var acc: nat, n := 0, Numeral(sz, start, radix, 0);
      WrapZero();
      assert Value() == Wrap(acc);
      while i < |sz| && DigitOf(sz[i], radix).Some?
        invariant start <= i <= |sz| && n == Numeral(sz, i, radix, acc) && Value() == Wrap(acc)
      {
        var digit := DigitOf(sz[i], radix).value;
        NextValue(acc, radix, digit);
        Append(radix, digit);
        MulNat(acc, radix);
        acc := acc * radix + digit;
        i := i + 1;
      }
    }

    method Append(radix: nat, digit: nat)
      requires radix < 0x1_0000_0000 && digit < 0x1_0000_0000
      modifies this
      ensures Value() == Wrap(Wrap(old(Value()) * radix) + digit)
    {
      var factor := Small(radix);
      Multiply(factor);
      var d := Small(digit);
      Add(d);
    }
  }
}
