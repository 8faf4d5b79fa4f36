/**
 Unsigned machine words as natural numbers: powers of two, single bits, alignment and the
 bitwise operators. Everything is defined bit by bit, by halving; the lemmas give the
 arithmetic meaning of the bit tricks the allocators use.
 */
module Bits {

  /** The number of values of a 64-bit word, 2^64, and its highest bit, 2^63. */
  const WORD: nat := 0x1_0000_0000_0000_0000
  const MAX_BIT: nat := 0x8000_0000_0000_0000

  function Pow2(n: nat): (r: nat)
    ensures r >= 1
  {
    if n == 0 then 1 else 2 * Pow2(n - 1)
  }

  predicate Bit(x: nat, i: nat) {
    if i == 0 then x % 2 == 1 else Bit(x / 2, i - 1)
  }

  /** The low n bits are clear. */
  predicate Aligned(x: int, n: nat)
    decreases n
  {
    n == 0 || (x % 2 == 0 && Aligned(x / 2, n - 1))
  }

  /** The value of the low n bits. */
  function Low(x: int, n: nat): (r: nat)
    ensures r < Pow2(n)
    decreases n
  {
    if n == 0 then 0 else x % 2 + 2 * Low(x / 2, n - 1)
  }

  function And(x: nat, y: nat): nat {
    if x == 0 || y == 0 then 0
    else (if x % 2 == 1 && y % 2 == 1 then 1 else 0) + 2 * And(x / 2, y / 2)
  }

  function Or(x: nat, y: nat): nat {
    if x == 0 then y else if y == 0 then x
    else (if x % 2 == 1 || y % 2 == 1 then 1 else 0) + 2 * Or(x / 2, y / 2)
  }

  function Xor(x: nat, y: nat): nat {
    if x == 0 then y else if y == 0 then x
    else (if x % 2 != y % 2 then 1 else 0) + 2 * Xor(x / 2, y / 2)
  }

  // ----- powers of two

  lemma {:induction false} Pow2Add(m: nat, n: nat)
    ensures Pow2(m + n) == Pow2(m) * Pow2(n)
  {
    if m == 0 {
    } else {
      Pow2Add(m - 1, n);
      assert Pow2(m + n) == 2 * (Pow2(m - 1) * Pow2(n));
    }
  }

  lemma Pow2Of16()
    ensures Pow2(16) == 0x1_0000
  {
    assert Pow2(4) == 16;
    Pow2Add(4, 4);
    Pow2Add(8, 8);
  }

  lemma WordIsPow2()
    ensures Pow2(64) == WORD && Pow2(63) == MAX_BIT
  {
    Pow2Of16();
    Pow2Add(16, 16);
    Pow2Add(32, 32);
  }

  lemma {:induction false} Pow2Monotonic(m: nat, n: nat)
    requires m <= n
    ensures Pow2(m) <= Pow2(n)
    ensures m < n ==> 2 * Pow2(m) <= Pow2(n)
  {
    if m < n {
      Pow2Monotonic(m, n - 1);
    }
  }

  lemma Pow2Word(n: nat)
    ensures n < 64 ==> 2 * Pow2(n) <= WORD
    ensures n <= 64 ==> Pow2(n) <= WORD
    ensures n >= 64 ==> Pow2(n) >= WORD
  {
    WordIsPow2();
    if n < 64 { Pow2Monotonic(n, 64); } else { Pow2Monotonic(64, n); }
  }

  // ----- alignment

  /** The bit-by-bit notions are division with remainder by 2^n. */
  lemma {:induction false} AlignedIsMultiple(x: int, n: nat)
    ensures Aligned(x, n) <==> x % Pow2(n) == 0
    ensures Low(x, n) == x % Pow2(n)
    decreases n
  {
    if n > 0 {
      AlignedIsMultiple(x / 2, n - 1);
      ModHalf(x, Pow2(n - 1));
    }
  }

  lemma ModHalf(x: int, p: nat)
    requires p > 0
    ensures x % (2 * p) == 2 * ((x / 2) % p) + x % 2
  {
    var q, r := (x / 2) / p, (x / 2) % p;
    var m := q * p;
    assert x / 2 == m + r;
    assert q * (2 * p) == 2 * m;
    DivModUnique(x, 2 * p, q, 2 * r + x % 2);
  }

  /** Writing a value as quotient and remainder is unique. */
  lemma DivModUnique(x: int, d: int, q: int, r: int)
    requires 0 <= r < d && x == q * d + r
    ensures x / d == q && x % d == r
  {
    var y := x / d;
    assert y * d == x - x % d;
    assert (y - q) * d == y * d - q * d;
    SmallMultiple(y - q, d);
  }

  /** A multiple of d strictly between -d and d is 0. */
  lemma SmallMultiple(k: int, d: int)
    requires -d < k * d < d
    ensures k == 0
  {
    assert k >= 1 ==> k * d == (k - 1) * d + d && (k - 1) * d >= 0;
    assert k <= -1 ==> k * d == (k + 1) * d - d && (k + 1) * d <= 0;
  }

  lemma {:induction false} AlignedDown(x: int, m: nat, n: nat)
    requires m <= n && Aligned(x, n)
    ensures Aligned(x, m)
    decreases n
  {
    if m > 0 { AlignedDown(x / 2, m - 1, n - 1); }
  }

  lemma {:induction false} AlignedAdd(x: int, y: int, n: nat)
    requires Aligned(x, n)
    ensures Aligned(x + y, n) <==> Aligned(y, n)
    decreases n
  {
    if n > 0 && y % 2 == 0 {
      assert (x + y) / 2 == x / 2 + y / 2;
      AlignedAdd(x / 2, y / 2, n - 1);
    }
  }

  lemma {:induction false} ZeroAligned(n: nat)
    ensures Aligned(0, n)
  {
    if n > 0 { ZeroAligned(n - 1); }
  }

  lemma {:induction false} Pow2Aligned(n: nat, k: nat)
    ensures Aligned(Pow2(n), k) <==> k <= n
  {
    if n > 0 && k > 0 {
      assert Pow2(n) / 2 == Pow2(n - 1);
      Pow2Aligned(n - 1, k - 1);
    }
  }

  lemma {:induction false} MultipleAligned(q: int, n: nat)
    ensures Aligned(q * Pow2(n), n)
  {
    if n > 0 {
      var h := q * Pow2(n - 1);
      assert q * Pow2(n) == 2 * h;
      MultipleAligned(q, n - 1);
    }
  }

  /** Reduction modulo the word size keeps alignment. */
  lemma WrapAligned(x: int, n: nat)
    requires n <= 64
    ensures Aligned(x % WORD, n) <==> Aligned(x, n)
  {
    var k: nat :| k == 64 && Pow2(k) == WORD by { WordIsPow2(); }
    var h := (x / WORD) * Pow2(k);
    MultipleAligned(x / WORD, k);
    AlignedDown(h, n, k);
    assert x == h + x % WORD;
    AlignedAdd(h, x % WORD, n);
  }

  /** Clearing the low bits aligns. */
  lemma {:induction false} RoundDown(x: int, n: nat)
    ensures Aligned(x - Low(x, n), n)
    ensures Aligned(x, n) <==> Low(x, n) == 0
    ensures x >= 0 ==> x - Low(x, n) >= 0
    decreases n
  {
    if n > 0 {
      RoundDown(x / 2, n - 1);
      assert (x - Low(x, n)) / 2 == x / 2 - Low(x / 2, n - 1);
    }
  }

  lemma {:induction false} LowSmall(x: nat, n: nat)
    requires x < Pow2(n)
    ensures Low(x, n) == x
  {
    if n > 0 { LowSmall(x / 2, n - 1); }
  }

  lemma {:induction false} LowOfSum(h: nat, l: nat, n: nat)
    requires Aligned(h, n) && l < Pow2(n)
    ensures Low(h + l, n) == l
  {
    if n > 0 {
      assert (h + l) / 2 == h / 2 + l / 2;
      LowOfSum(h / 2, l / 2, n - 1);
    }
  }

  /** Two different values aligned to n are at least 2^n apart. */
  lemma {:induction false} AlignedApart(x: int, y: int, n: nat)
    requires Aligned(x, n) && Aligned(y, n) && x < y
    ensures x + Pow2(n) <= y
    decreases n
  {
    if n > 0 { AlignedApart(x / 2, y / 2, n - 1); }
  }

  /** A value aligned to n but not to n + 1 is 2^n away from two values aligned to n + 1. */
  lemma {:induction false} AlignedStep(x: int, n: nat)
    requires Aligned(x, n) && !Aligned(x, n + 1)
    ensures Aligned(x - Pow2(n), n + 1) && Aligned(x + Pow2(n), n + 1)
    decreases n
  {
    if n > 0 {
      AlignedStep(x / 2, n - 1);
      assert (x - Pow2(n)) / 2 == x / 2 - Pow2(n - 1);
      assert (x + Pow2(n)) / 2 == x / 2 + Pow2(n - 1);
    }
  }

  // ----- bitwise operators

  /** On a value aligned to n, bit n decides whether it is aligned to n + 1. */
  lemma {:induction false} BitOfAligned(x: nat, n: nat)
    requires Aligned(x, n)
    ensures Bit(x, n) <==> !Aligned(x, n + 1)
  {
    if n > 0 { BitOfAligned(x / 2, n - 1); }
  }

  lemma {:induction false} BitBound(x: nat, i: nat)
    requires Bit(x, i)
    ensures Pow2(i) <= x
  {
    if i > 0 { BitBound(x / 2, i - 1); }
  }

  lemma {:induction false} TopBitClear(x: nat, i: nat)
    requires x < Pow2(i + 1) && !Bit(x, i)
    ensures x < Pow2(i)
  {
    if i > 0 { TopBitClear(x / 2, i - 1); }
  }

  lemma {:induction false} NoBits(i: nat)
    ensures !Bit(0, i)
  {
    if i > 0 { NoBits(i - 1); }
  }

  /** A bitwise or is aligned exactly when both operands are. */
  lemma {:induction false} OrAligned(x: nat, y: nat, n: nat)
    ensures Aligned(Or(x, y), n) <==> Aligned(x, n) && Aligned(y, n)
  {
    ZeroAligned(n);
    if n > 0 && x != 0 && y != 0 {
      OrAligned(x / 2, y / 2, n - 1);
    }
  }

  lemma {:induction false} OrPositive(x: nat, y: nat)
    requires y > 0
    ensures Or(x, y) > 0
  {
    if x != 0 && y % 2 == 0 && x % 2 == 0 { OrPositive(x / 2, y / 2); }
  }

  /** `x & (1 << n)` tests bit n. */
  lemma {:induction false} AndPow2(x: nat, n: nat)
    ensures And(x, Pow2(n)) == if Bit(x, n) then Pow2(n) else 0
  {
    if x == 0 {
      NoBits(n);
    } else if n == 0 {
      assert And(x / 2, 0) == 0;
    } else {
      assert Pow2(n) / 2 == Pow2(n - 1);
      AndPow2(x / 2, n - 1);
    }
  }

  /** `x ^ (1 << n)` flips bit n, so it moves the value by exactly 2^n. */
  lemma {:induction false} XorPow2(x: nat, n: nat)
    ensures Bit(x, n) ==> x >= Pow2(n)
    ensures Xor(x, Pow2(n)) == if Bit(x, n) then x - Pow2(n) else x + Pow2(n)
  {
    if x == 0 {
      NoBits(n);
    } else if n == 0 {
      assert Xor(x / 2, 0) == x / 2;
    } else {
      assert Pow2(n) / 2 == Pow2(n - 1);
      XorPow2(x / 2, n - 1);
    }
  }

  /** `x & (2^n - 1)` keeps the low n bits. */
  lemma {:induction false} AndMask(x: nat, n: nat)
    ensures And(x, Pow2(n) - 1) == Low(x, n)
  {
    if n == 0 {
    } else {
      AndMask(x / 2, n - 1);
      assert (Pow2(n) - 1) / 2 == Pow2(n - 1) - 1;
    }
  }

  lemma AndEven(x: nat, m: nat)
    ensures And(x, 2 * m) == 2 * And(x / 2, m)
  {
  }

  /** `x & ~(2^n - 1)` on k-bit words clears the low n bits. */
  lemma {:induction false} AndHighMask(x: nat, n: nat, k: nat)
    requires n <= k && x < Pow2(k)
    ensures Pow2(n) <= Pow2(k) && And(x, Pow2(k) - Pow2(n)) == x - Low(x, n)
  {
    hide And;
    Pow2Monotonic(n, k);
    if n == 0 {
      AndMask(x, k);
      LowSmall(x, k);
    } else {
      Pow2Monotonic(n - 1, k - 1);
      AndHighMask(x / 2, n - 1, k - 1);
      AndEven(x, Pow2(k - 1) - Pow2(n - 1));
    }
  }

  /** Or and and together hold every bit of both operands. */
  lemma {:induction false} OrPlusAnd(x: nat, y: nat)
    ensures Or(x, y) + And(x, y) == x + y
  {
    if x != 0 && y != 0 { OrPlusAnd(x / 2, y / 2); }
  }

  /** A multiple of 2^n and a value below 2^n share no bits, so or adds them. */
  lemma {:induction false} OrDisjoint(x: nat, y: nat, n: nat)
    requires Aligned(x, n) && y < Pow2(n)
    ensures And(x, y) == 0 && And(y, x) == 0
    ensures Or(x, y) == Or(y, x) == x + y
  {
    if n > 0 && x != 0 && y != 0 {
      OrDisjoint(x / 2, y / 2, n - 1);
    }
  }

  /** A mask and its complement split a k-bit word. */
  lemma {:induction false} AndComplement(x: nat, m: nat, k: nat)
    requires x < Pow2(k) && m < Pow2(k)
    ensures And(x, m) + And(x, Pow2(k) - 1 - m) == x
  {
    if k > 0 {
      AndComplement(x / 2, m / 2, k - 1);
      var c := Pow2(k) - 1 - m;
      assert c / 2 == Pow2(k - 1) - 1 - m / 2 && c % 2 == 1 - m % 2;
      AndStep(x, m);
      AndStep(x, c);
    }
  }

  lemma AndStep(x: nat, m: nat)
    ensures And(x, m) == (if x % 2 == 1 && m % 2 == 1 then 1 else 0) + 2 * And(x / 2, m / 2)
  {
  }

  /** Bit n of a word is its n-th binary digit. */
  lemma {:induction false} BitIsDigit(x: nat, n: nat)
    ensures Bit(x, n) <==> Low(x, n + 1) >= Pow2(n)
    ensures Low(x, n + 1) == Low(x, n) + if Bit(x, n) then Pow2(n) else 0
  {
    if n > 0 { BitIsDigit(x / 2, n - 1); }
  }
}
