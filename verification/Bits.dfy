/**
 Powers of two and the bitwise operators of C's unsigned integers, on naturals.
 The bit tricks of the kernel (population count, rounding down to a power of two,
 masking with `p - 1`) are modelled with these operators and proved to compute
 the arithmetic they stand for.
 */
module Bits {

  import opened Words

  function Pow2(n: nat): (p: nat)
    ensures p >= 1
  {
    if n == 0 then 1 else 2 * Pow2(n - 1)
  }

  // x >> n
  function Shr(x: nat, n: nat): (y: nat)
    ensures y <= x
  {
    if n == 0 then x else Shr(x / 2, n - 1)
  }

  // x & y
  function And(x: nat, y: nat): (z: nat)
    ensures z <= x && z <= y
  {
    if x == 0 || y == 0 then 0
    else (if x % 2 == 1 && y % 2 == 1 then 1 else 0) + 2 * And(x / 2, y / 2)
  }

  // x | y
  function Or(x: nat, y: nat): (z: nat)
    decreases x + y
  {
    if x == 0 then y
    else if y == 0 then x
    else (if x % 2 == 1 || y % 2 == 1 then 1 else 0) + 2 * Or(x / 2, y / 2)
  }

  // The number of one bits.
  function Ones(x: nat): nat {
    if x == 0 then 0 else x % 2 + Ones(x / 2)
  }

  predicate Bit(x: nat, i: nat) {
    Shr(x, i) % 2 == 1
  }

  lemma {:induction false} Pow2Monotone(a: nat, b: nat)
    requires a <= b
    ensures Pow2(a) <= Pow2(b)
    ensures a < b ==> 2 * Pow2(a) <= Pow2(b)
  {
    if b <= a {
    } else {
      Pow2Monotone(a, b - 1);
    }
  }

  // ---- And ----

  lemma {:induction false} AndSelf(x: nat)
    ensures And(x, x) == x
  {
    if x == 0 {
    } else {
      AndSelf(x / 2);
    }
  }

  // `x & (x - 1)` clears the lowest one bit.
  lemma {:induction false} AndClearsLowestOne(x: nat)
    requires x > 0
    ensures And(x, x - 1) < x
    ensures Ones(And(x, x - 1)) == Ones(x) - 1
  {
    var h := x / 2;
    if x % 2 == 1 {
      AndSelf(h);
      if x == 1 {
      } else {
        assert (x - 1) / 2 == h;
        assert And(x, x - 1) == 2 * h;
        assert (2 * h) / 2 == h;
      }
    } else {
      assert (x - 1) / 2 == h - 1 && (x - 1) % 2 == 1;
      AndClearsLowestOne(h);
      var y := And(h, h - 1);
      assert And(x, x - 1) == 2 * y;
      assert (2 * y) / 2 == y && (2 * y) % 2 == 0;
      assert Ones(2 * y) == Ones(y);
    }
  }

  /** The low n bits of x. */
  function Low(x: nat, n: nat): (y: nat)
    ensures y <= x
  {
    if n == 0 then 0 else x % 2 + 2 * Low(x / 2, n - 1)
  }

  /** 2^n divides x. */
  predicate Aligned(x: nat, n: nat) {
    Low(x, n) == 0
  }

  lemma {:induction false} LowZero(n: nat)
    ensures Low(0, n) == 0
  {
    if n == 0 {
    } else {
      LowZero(n - 1);
    }
  }

  // Masking with `2^n - 1` keeps the low n bits.
  lemma {:induction false} AndMask(n: nat, x: nat)
    ensures And(Pow2(n) - 1, x) == Low(x, n)
  {
    if n == 0 {
    } else {
      var q := Pow2(n - 1);
      AndMask(n - 1, x / 2);
      assert (2 * q - 1) / 2 == q - 1 && (2 * q - 1) % 2 == 1;
    }
  }

  // x << n
  function Shl(x: nat, n: nat): nat {
    if n == 0 then x else 2 * Shl(x, n - 1)
  }

  lemma {:induction false} ShlOne(n: nat)
    ensures Shl(1, n) == Pow2(n)
  {
    if n == 0 {
    } else {
      ShlOne(n - 1);
    }
  }

  lemma {:induction false} ShlSum(x: nat, y: nat, n: nat)
    ensures Shl(x + y, n) == Shl(x, n) + Shl(y, n)
  {
    if n == 0 {
    } else {
      ShlSum(x, y, n - 1);
    }
  }

  lemma {:induction false} ShlShl(x: nat, m: nat, n: nat)
    ensures Shl(Shl(x, m), n) == Shl(x, m + n)
  {
    if n == 0 {
    } else {
      ShlShl(x, m, n - 1);
    }
  }

  lemma Shl3(x: nat, n: nat)
    ensures Shl(x, n + 3) == 8 * Shl(x, n)
  {
    assert Shl(x, n + 2) == 2 * Shl(x, n + 1);
  }

  lemma ShlTen(x: nat)
    ensures Shl(x, 10) == 1024 * x
  {
    Shl3(x, 0);
    Shl3(x, 3);
    Shl3(x, 6);
  }

  lemma {:induction false} LowShl(x: nat, m: nat, n: nat)
    ensures Low(Shl(x, m), n + m) == Shl(Low(x, n), m)
  {
    if m == 0 {
    } else {
      LowShl(x, m - 1, n);
      assert Shl(x, m) / 2 == Shl(x, m - 1) && Shl(x, m) % 2 == 0;
    }
  }

  lemma {:induction false} ShlZero(x: nat, n: nat)
    ensures Shl(x, n) == 0 <==> x == 0
  {
    if n == 0 {
    } else {
      ShlZero(x, n - 1);
    }
  }

  // An odd multiple of 2^m is not a multiple of any larger power of two.
  lemma OddMultiple(odd: nat, m: nat, n: nat)
    requires odd % 2 == 1 && m < n
    ensures !Aligned(Shl(odd, m), n)
  {
    LowShl(odd, m, n - m);
    ShlZero(Low(odd, n - m), m);
  }

  // ---- Ones ----

  lemma {:induction false} OnesShl(x: nat, n: nat)
    ensures Ones(Shl(x, n)) == Ones(x)
  {
    if n == 0 {
    } else {
      OnesShl(x, n - 1);
      assert Shl(x, n) / 2 == Shl(x, n - 1) && Shl(x, n) % 2 == 0;
    }
  }

  // Adding 2^n to a multiple of 2^(n+1) sets one more bit.
  lemma OnesAddLow(x: nat, n: nat)
    ensures Ones(Shl(x, n + 1) + Pow2(n)) == Ones(x) + 1
  {
    ShlShl(x, 1, n);
    assert Shl(x, 1) == 2 * x;
    ShlOne(n);
    ShlSum(2 * x, 1, n);
    OnesShl(2 * x + 1, n);
    assert (2 * x + 1) / 2 == x && (2 * x + 1) % 2 == 1;
  }

  // ---- Bits of Or and Shr ----

  lemma {:induction false} ShrShr(x: nat, m: nat, n: nat)
    ensures Shr(Shr(x, m), n) == Shr(x, m + n)
  {
    if m == 0 {
    } else {
      ShrShr(x / 2, m - 1, n);
    }
  }

  lemma {:induction false} ShrZero(n: nat)
    ensures Shr(0, n) == 0
  {
    if n == 0 {
    } else {
      ShrZero(n - 1);
    }
  }

  lemma {:induction false} BitOr(x: nat, y: nat, i: nat)
    ensures Bit(Or(x, y), i) == (Bit(x, i) || Bit(y, i))
  {
    ShrZero(i);
    if x == 0 || y == 0 {
    } else if i == 0 {
    } else {
      BitOr(x / 2, y / 2, i - 1);
      assert Or(x, y) / 2 == Or(x / 2, y / 2);
    }
  }

  lemma {:induction false} BitShr(x: nat, m: nat, i: nat)
    ensures Bit(Shr(x, m), i) == Bit(x, i + m)
  {
    ShrShr(x, m, i);
  }

  lemma {:induction false} OrBelow(x: nat, y: nat, n: nat)
    requires x < Pow2(n) && y < Pow2(n)
    ensures x <= Or(x, y) < Pow2(n) && y <= Or(x, y)
    decreases n
  {
    if x == 0 || y == 0 {
    } else {
      OrBelow(x / 2, y / 2, n - 1);
    }
  }

  // The top `m` bits of a number of `n` bits are all ones.
  ghost predicate TopRun(x: nat, n: nat, m: nat) {
    x < Pow2(n) && forall i: nat :: n - m <= i < n ==> Bit(x, i)
  }

  // x | (x >> m)
  function Smear(x: nat, m: nat): nat {
    Or(x, Shr(x, m))
  }

  // One smearing step `x |= x >> m` doubles the run of ones at the top.
  lemma SmearStep(x: nat, n: nat, m: nat)
    requires TopRun(x, n, m)
    ensures TopRun(Smear(x, m), n, 2 * m)
    ensures x <= Smear(x, m)
  {
    var y := Shr(x, m);
    OrBelow(x, y, n);
    forall i: nat | n - 2 * m <= i < n
      ensures Bit(Or(x, y), i)
    {
      BitOr(x, y, i);
      BitShr(x, m, i);
    }
  }

  lemma {:induction false} AllOnes(x: nat, n: nat)
    requires TopRun(x, n, n)
    ensures x == Pow2(n) - 1
  {
    if n == 0 {
    } else {
      assert Bit(x, 0);
      forall i: nat | i < n - 1
        ensures Bit(x / 2, i)
      {
        assert Bit(x, i + 1);
      }
      AllOnes(x / 2, n - 1);
    }
  }

  lemma {:induction false} TopBit(x: nat, n: nat)
    requires Pow2(n) <= x < Pow2(n + 1)
    ensures Bit(x, n)
  {
    if n == 0 {
    } else {
      TopBit(x / 2, n - 1);
    }
  }

  // The number of bits of x.
  function BitLength(x: nat): (n: nat)
    ensures x > 0 ==> n > 0 && Pow2(n - 1) <= x
    ensures x < Pow2(n)
  {
    if x == 0 then 0 else BitLength(x / 2) + 1
  }

  lemma {:induction false} BitLengthBound(x: nat, n: nat)
    requires x < Pow2(n)
    ensures BitLength(x) <= n
  {
    if x == 0 {
    } else {
      BitLengthBound(x / 2, n - 1);
    }
  }

  lemma Pow2By16(n: nat)
    ensures Pow2(n + 16) == 0x1_0000 * Pow2(n)
  {
    assert Pow2(n + 4) == 16 * Pow2(n) by { assert Pow2(n + 2) == 4 * Pow2(n); }
    assert Pow2(n + 8) == 16 * Pow2(n + 4) by { assert Pow2(n + 6) == 4 * Pow2(n + 4); }
    assert Pow2(n + 12) == 16 * Pow2(n + 8) by { assert Pow2(n + 10) == 4 * Pow2(n + 8); }
    assert Pow2(n + 14) == 4 * Pow2(n + 12);
  }

  lemma Pow2Is64(n: nat)
    requires n == 64
    ensures Pow2(n) == TWO64
  {
    Pow2By16(n - 16);
    Pow2By16(n - 32);
    Pow2By16(n - 48);
    Pow2By16(n - 64);
  }

  lemma BitLength64(x: nat)
    requires x < TWO64
    ensures BitLength(x) <= 64
  {
    var n: nat :| n == 64;
    Pow2Is64(n);
    BitLengthBound(x, n);
  }

  /** The loop of popcnt: each round clears the lowest one bit. */
  method PopCount(v: nat) returns (count: nat)
    ensures count == Ones(v)
  {
    var x := v;
    count := 0;
    while x != 0
      invariant count + Ones(x) == Ones(v)
    {
      AndClearsLowestOne(x);
      count := count + 1;
      x := And(x, x - 1);
    }
  }

  // One smearing step of a number of n bits whose top m bits are ones.
  method SmearOnce(x: nat, m: nat, ghost n: nat) returns (y: nat)
    requires TopRun(x, n, m)
    ensures TopRun(y, n, 2 * m)
  {
    SmearStep(x, n, m);
    y := Smear(x, m);
  }

  // Six of them fill a number of up to 64 bits with ones.
  method FillBelow(v: nat, ghost n: nat) returns (x: nat)
    requires n <= 64 && TopRun(v, n, 1)
    ensures x == Pow2(n) - 1
  {
    x := SmearOnce(v, 1, n);
    x := SmearOnce(x, 2, n);
    x := SmearOnce(x, 4, n);
    x := SmearOnce(x, 8, n);
    x := SmearOnce(x, 16, n);
    x := SmearOnce(x, 32, n);
    AllOnes(x, n);
  }

  /** round_down_to_power_of_2: smear the top bit downwards, then keep it alone. */
  method RoundDownToPowerOf2(v: nat) returns (p: nat)
    requires v < TWO64
    ensures v == 0 ==> p == 0
    ensures v > 0 ==> p == Pow2(BitLength(v) - 1) && p <= v < 2 * p
  {
    ghost var n := BitLength(v);
    BitLength64(v);
    if v > 0 {
      TopBit(v, n - 1);
    }
    var x := FillBelow(v, n);
    p := x - Shr(x, 1);
    assert Shr(x, 1) == x / 2;
  }
}
