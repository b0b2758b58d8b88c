/** Shifts and the bitwise operators, on integers of any size. They are written as recursions
    that shift by one place, so that facts about them need no products. */
module Bitwise {

  // ---------- shifts of integers ----------

  // x shifted left by n.
  function Shl(x: int, n: nat): (r: int)
    ensures x > 0 ==> r > 0
    ensures x == 0 ==> r == 0
    ensures x < 0 ==> r < 0
    decreases n, x
  {
    if n == 0 then x else 2 * Shl(x, n - 1)
  }

  function Pow2(n: nat): (r: int)
    ensures r > 0
  {
    Shl(1, n)
  }

  // x shifted right by n, rounding down, and the n bits that fall off.
  function Shr(x: int, n: nat): (r: int)
    ensures x >= 0 ==> 0 <= r <= x
    ensures x < 0 ==> x <= r < 0
    decreases n, x
  {
    if n == 0 then x else Shr(x / 2, n - 1)
  }

  function Low(x: int, n: nat): (r: int)
    ensures 0 <= r < Pow2(n) && (x >= 0 ==> r <= x)
    decreases n, x
  {
    if n == 0 then 0 else 2 * Low(x / 2, n - 1) + x % 2
  }

  lemma {:induction false} ShlAdd(x: int, y: int, n: nat)
    ensures Shl(x + y, n) == Shl(x, n) + Shl(y, n)
    decreases n
  {
    if n > 0 {
      ShlAdd(x, y, n - 1);
    }
  }

  lemma {:induction false} ShlTwice(x: int, m: nat, n: nat)
    ensures Shl(Shl(x, m), n) == Shl(x, m + n)
    decreases n
  {
    if n > 0 {
      ShlTwice(x, m, n - 1);
    }
  }

  lemma ShlSum(z: int, x: int, y: int, n: nat)
    requires z == x + y
    ensures Shl(z, n) == Shl(x, n) + Shl(y, n)
  {
    ShlAdd(x, y, n);
  }

  lemma ShlSwap(x: int, m: nat, n: nat)
    ensures Shl(Shl(x, m), n) == Shl(Shl(x, n), m)
  {
    ShlTwice(x, m, n);
    ShlTwice(x, n, m);
  }

  lemma {:induction false} ShlOrder(x: int, y: int, n: nat)
    ensures x <= y <==> Shl(x, n) <= Shl(y, n)
    decreases n
  {
    if n > 0 {
      ShlOrder(x, y, n - 1);
    }
  }

  lemma {:induction false} ShlIsMul(x: int, n: nat)
    ensures Shl(x, n) == x * Pow2(n)
    decreases n
  {
    if n > 0 {
      ShlIsMul(x, n - 1);
      MulTwo(x, Pow2(n - 1));
    }
  }

  lemma MulTwo(x: int, p: int)
    ensures x * (2 * p) == 2 * (x * p)
  {
  }

  lemma {:induction false} Pow2Grows(m: nat, n: nat)
    requires m <= n
    ensures Pow2(m) <= Pow2(n)
    ensures m < n ==> 2 * Pow2(m) <= Pow2(n)
  {
    if m < n {
      Pow2Grows(m, n - 1);
    }
  }

  lemma {:induction false} ShrStep(x: int, n: nat)
    ensures Shr(x, n + 1) == Shr(x, n) / 2
    ensures Low(x, n + 1) == Low(x, n) + (if Shr(x, n) % 2 == 1 then Pow2(n) else 0)
    decreases n
  {
    if n > 0 {
      ShrStep(x / 2, n - 1);
    }
  }

  lemma {:induction false} ShrTwice(x: int, m: nat, n: nat)
    ensures Shr(x, m + n) == Shr(Shr(x, m), n)
    decreases m
  {
    if m > 0 {
      ShrTwice(x / 2, m - 1, n);
    }
  }

  // They are quotient and remainder, and the only ones.
  lemma {:induction false} ShrLow(x: int, n: nat)
    ensures x == Shl(Shr(x, n), n) + Low(x, n)
    decreases n
  {
    if n > 0 {
      ShrLow(x / 2, n - 1);
    }
  }

  lemma {:induction false} ShrUnique(x: int, n: nat, q: int, r: int)
    requires x == Shl(q, n) + r && 0 <= r < Pow2(n)
    ensures Shr(x, n) == q && Low(x, n) == r
    decreases n
  {
    if n > 0 {
      assert x / 2 == Shl(q, n - 1) + r / 2 && x % 2 == r % 2;
      ShrUnique(x / 2, n - 1, q, r / 2);
    }
  }

  lemma ShrIsDiv(x: int, n: nat)
    ensures Shr(x, n) == x / Pow2(n) && Low(x, n) == x % Pow2(n)
  {
    var q, r := x / Pow2(n), x % Pow2(n);
    ShlIsMul(q, n);
    assert x == q * Pow2(n) + r;
    ShrUnique(x, n, q, r);
  }

  lemma SmallShr(x: int, n: nat)
    requires 0 <= x < Pow2(n)
    ensures Shr(x, n) == 0 && Low(x, n) == x
  {
    ShrUnique(x, n, 0, x);
  }

  // Adding what the n bits cannot see.
  lemma ShrAdd(x: int, n: nat, d: int)
    ensures Shr(x + Shl(d, n), n) == Shr(x, n) + d
    ensures Low(x + Shl(d, n), n) == Low(x, n)
  {
    ShrLow(x, n);
    ShlAdd(Shr(x, n), d, n);
    ShrUnique(x + Shl(d, n), n, Shr(x, n) + d, Low(x, n));
  }

  // Numbers that differ by a multiple of 2^n have the same low bits.
  lemma LowSame(x: int, y: int, n: nat, d: int)
    requires x == y + Shl(d, n)
    ensures Low(x, n) == Low(y, n)
  {
    ShrAdd(y, n, d);
  }

  lemma ShlEight(x: int, n: nat)
    ensures Shl(x, n + 8) == 256 * Shl(x, n)
  {
    assert Shl(x, n + 2) == 2 * Shl(x, n + 1) == 4 * Shl(x, n);
    assert Shl(x, n + 4) == 2 * Shl(x, n + 3) == 4 * Shl(x, n + 2);
    assert Shl(x, n + 6) == 2 * Shl(x, n + 5) == 4 * Shl(x, n + 4);
    assert Shl(x, n + 8) == 2 * Shl(x, n + 7) == 4 * Shl(x, n + 6);
  }

  // ---------- the bits of words ----------

  // The operators & and |.
  function And(a: nat, b: nat): nat {
    if a == 0 || b == 0 then 0 else 2 * And(a / 2, b / 2) + (if a % 2 == 1 && b % 2 == 1 then 1 else 0)
  }

  function Or(a: nat, b: nat): nat {
    if a == 0 then b else if b == 0 then a
    else 2 * Or(a / 2, b / 2) + (if a % 2 == 1 || b % 2 == 1 then 1 else 0)
  }

  lemma {:induction false} LowZero(n: nat)
    ensures Low(0, n) == 0 && Shr(0, n) == 0
  {
    if n > 0 {
      LowZero(n - 1);
    }
  }

  // Masking with the n low bits.
  lemma {:induction false} AndLow(a: nat, n: nat)
    ensures And(a, Pow2(n) - 1) == Low(a, n)
  {
    LowZero(n);
    if n > 0 {
      var m := Pow2(n) - 1;
      assert m / 2 == Pow2(n - 1) - 1 && m % 2 == 1;
      AndLow(a / 2, n - 1);
    }
  }

  // Masking with the complement in a word of k bits.
  lemma {:induction false} AndNot(a: nat, b: nat, k: nat)
    requires a < Pow2(k) && b < Pow2(k)
    ensures And(a, Pow2(k) - 1 - b) + And(a, b) == a
  {
    if k > 0 {
      var c := Pow2(k) - 1 - b;
      assert c / 2 == Pow2(k - 1) - 1 - b / 2 && c % 2 == 1 - b % 2;
      AndNot(a / 2, b / 2, k - 1);
    }
  }

  // Masking with one bit.
  lemma {:induction false} AndOne(a: nat, n: nat)
    ensures And(a, Pow2(n)) == if Shr(a, n) % 2 == 1 then Pow2(n) else 0
  {
    LowZero(n);
    if n == 0 {
      assert And(a / 2, 0) == 0;
    } else if a > 0 {
      AndOne(a / 2, n - 1);
    }
  }

  // Joining bits that do not overlap.
  lemma {:induction false} OrApart(a: nat, b: nat, n: nat)
    requires Low(a, n) == 0 && b < Pow2(n)
    ensures Or(a, b) == Or(b, a) == a + b
    decreases n
  {
    if n > 0 {
      OrApart(a / 2, b / 2, n - 1);
    }
  }

  // Setting a bit.
  lemma {:induction false} OrOne(a: nat, n: nat)
    ensures Or(a, Pow2(n)) == if Shr(a, n) % 2 == 1 then a else a + Pow2(n)
  {
    LowZero(n);
    if n == 0 {
      assert Or(a / 2, 0) == a / 2;
    } else if a > 0 {
      OrOne(a / 2, n - 1);
    }
  }

  // Bit by bit, both are what the operators say.
  lemma {:induction false} AndBits(a: nat, b: nat, k: nat)
    ensures Shr(And(a, b), k) % 2 == 1 <==> Shr(a, k) % 2 == 1 && Shr(b, k) % 2 == 1
    decreases k
  {
    LowZero(k);
    if k > 0 && a > 0 && b > 0 {
      assert And(a, b) / 2 == And(a / 2, b / 2);
      AndBits(a / 2, b / 2, k - 1);
    }
  }

  lemma {:induction false} OrBits(a: nat, b: nat, k: nat)
    ensures Shr(Or(a, b), k) % 2 == 1 <==> Shr(a, k) % 2 == 1 || Shr(b, k) % 2 == 1
    decreases k
  {
    LowZero(k);
    if k > 0 && a > 0 && b > 0 {
      assert Or(a, b) / 2 == Or(a / 2, b / 2);
      OrBits(a / 2, b / 2, k - 1);
    }
  }
}
