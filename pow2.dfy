/** Powers of two, and the bit-smearing round-up that the buffer uses to
    choose its new capacity (flhex.c:76-83). */
module PowerOfTwo {

  /** 2^k. */
  function Pow2(k: nat): (p: nat)
    ensures p >= 1
  {
    if k == 0 then 1 else 2 * Pow2(k - 1)
  }

  /** The least k with n <= 2^k. */
  function CeilLog2(n: nat): nat
  {
    if n <= 1 then 0 else 1 + CeilLog2((n + 1) / 2)
  }

  /** The least power of two that is at least n. */
  function LeastPow2(n: nat): nat
  {
    Pow2(CeilLog2(n))
  }

  /** n is a power of two: it is its own least power of two above. */
  predicate IsPow2(n: nat)
  {
    LeastPow2(n) == n
  }

  lemma {:induction false} Pow2Monotone(i: nat, j: nat)
    requires i <= j
    ensures Pow2(i) <= Pow2(j)
  {
    if i < j {
      Pow2Monotone(i, j - 1);
    }
  }

  /** 2^j is the least power of two above n exactly when n lies in
      (2^(j-1), 2^j] (in [0, 1] for j = 0). */
  lemma {:induction false} CeilLog2Exact(n: nat, j: nat)
    requires n <= Pow2(j)
    requires j > 0 ==> Pow2(j - 1) < n
    ensures CeilLog2(n) == j
  {
    if j > 0 {
      assert n >= 2;
      var m := (n + 1) / 2;
      assert m <= Pow2(j - 1);
      if j > 1 {
        assert Pow2(j - 1) == 2 * Pow2(j - 2);
        assert Pow2(j - 2) < m;
      }
      CeilLog2Exact(m, j - 1);
    }
  }

  /** LeastPow2(n) is at least n, and half of it is below n. */
  lemma {:induction false} LeastPow2Bounds(n: nat)
    ensures n <= LeastPow2(n)
    ensures CeilLog2(n) > 0 ==> Pow2(CeilLog2(n) - 1) < n
  {
    if n > 1 {
      LeastPow2Bounds((n + 1) / 2);
    }
  }

  /** No power of two at least n is smaller than LeastPow2(n). */
  lemma LeastPow2IsLeast(n: nat, j: nat)
    requires n <= Pow2(j)
    ensures LeastPow2(n) <= Pow2(j)
  {
    LeastPow2Bounds(n);
    var k := CeilLog2(n);
    if k > j {
      Pow2Monotone(j, k - 1);
    }
    if k > 0 && k <= j {
      Pow2Monotone(k, j);
    }
  }

  /** Every 2^j is a power of two. */
  lemma Pow2IsPow2(j: nat)
    ensures IsPow2(Pow2(j))
  {
    if j > 0 {
      Pow2Monotone(j - 1, j);
    }
    CeilLog2Exact(Pow2(j), j);
  }

  /** LeastPow2 is monotone. */
  lemma LeastPow2Monotone(m: nat, n: nat)
    requires m <= n
    ensures LeastPow2(m) <= LeastPow2(n)
  {
    LeastPow2Bounds(n);
    LeastPow2IsLeast(m, CeilLog2(n));
  }

  /** The least power of two above n is a power of two. */
  lemma LeastPow2IsPow2(n: nat)
    ensures IsPow2(LeastPow2(n))
  {
    Pow2IsPow2(CeilLog2(n));
  }

  /** IsPow2 holds exactly of the numbers 2^k. */
  lemma PowersOfTwo(n: nat)
    ensures IsPow2(n) <==> exists k :: n == Pow2(k)
  {
    if exists k :: n == Pow2(k) {
      var k :| n == Pow2(k);
      Pow2IsPow2(k);
    }
    if IsPow2(n) {
      assert n == Pow2(CeilLog2(n));
    }
  }

  /** A power of two at least m is at least LeastPow2(m). */
  lemma Pow2AboveIsAboveLeast(m: nat, p: nat)
    requires IsPow2(p) && m <= p
    ensures LeastPow2(m) <= p
  {
    LeastPow2IsLeast(m, CeilLog2(p));
  }

  // ---------------------------------------------------------------------
  // The uint32 bit smearing of flhex.c:76-83, over bv32.

  /** Ors every bit of x into all the bits below it. */
  function Smear(x: bv32): bv32
  {
    var a := x | (x >> 16);
    var b := a | (a >> 8);
    var c := b | (b >> 4);
    var d := c | (c >> 2);
    d | (d >> 1)
  }

  /** y has exactly one bit set. */
  predicate SingleBit(y: bv32)
  {
    y != 0 && (y & (y - 1)) == 0
  }

  /** Over bv32 alone: for x in [1, 2^31] that is no power of two, smearing
      then incrementing yields a single set bit r with r/2 < x < r. */
  lemma SmearBits(x: bv32)
    requires 1 <= x <= 0x8000_0000 && !SingleBit(x)
    ensures var r := Smear(x) + 1; SingleBit(r) && (r >> 1) < x < r
  {
  }

  /** The 32 powers of two below 2^32. */
  const Powers: seq<nat> := [
    0x1, 0x2, 0x4, 0x8, 0x10, 0x20, 0x40, 0x80,
    0x100, 0x200, 0x400, 0x800, 0x1000, 0x2000, 0x4000, 0x8000,
    0x10000, 0x20000, 0x40000, 0x80000, 0x100000, 0x200000, 0x400000, 0x800000,
    0x1000000, 0x2000000, 0x4000000, 0x8000000, 0x10000000, 0x20000000, 0x40000000, 0x80000000
  ]

  lemma {:induction false} PowersArePow2(j: nat)
    requires j < 32
    ensures Pow2(j) == Powers[j]
  {
    if j > 0 {
      PowersArePow2(j - 1);
    }
  }

  // A single set bit y with y/2 < x <= y is one of the 32 Powers, and x lies
  // between the same bounds as an integer. The proof enumerates the 32 values
  // of y, eight at a time, so that x is only ever compared with constants.

  lemma RangeByte0(x: bv32, y: bv32) returns (j: nat)
    requires SingleBit(y) && 0x1 <= y <= 0x80 && (y >> 1) < x <= y
    ensures j < 32 && y as int == Powers[j]
    ensures j > 0 ==> Powers[j - 1] < x as int
    ensures x as int <= y as int
  {
    if y == 0x1 {
      j := 0;
    } else if y == 0x2 {
      j := 1;
    } else if y == 0x4 {
      j := 2;
    } else if y == 0x8 {
      j := 3;
    } else if y == 0x10 {
      j := 4;
    } else if y == 0x20 {
      j := 5;
    } else if y == 0x40 {
      j := 6;
    } else {
      assert y == 0x80;
      j := 7;
    }
  }

  lemma RangeByte1(x: bv32, y: bv32) returns (j: nat)
    requires SingleBit(y) && 0x100 <= y <= 0x8000 && (y >> 1) < x <= y
    ensures j < 32 && y as int == Powers[j]
    ensures j > 0 ==> Powers[j - 1] < x as int
    ensures x as int <= y as int
  {
    if y == 0x100 {
      j := 8;
    } else if y == 0x200 {
      j := 9;
    } else if y == 0x400 {
      j := 10;
    } else if y == 0x800 {
      j := 11;
    } else if y == 0x1000 {
      j := 12;
    } else if y == 0x2000 {
      j := 13;
    } else if y == 0x4000 {
      j := 14;
    } else {
      assert y == 0x8000;
      j := 15;
    }
  }

  lemma RangeByte2(x: bv32, y: bv32) returns (j: nat)
    requires SingleBit(y) && 0x10000 <= y <= 0x800000 && (y >> 1) < x <= y
    ensures j < 32 && y as int == Powers[j]
    ensures j > 0 ==> Powers[j - 1] < x as int
    ensures x as int <= y as int
  {
    if y == 0x10000 {
      j := 16;
    } else if y == 0x20000 {
      j := 17;
    } else if y == 0x40000 {
      j := 18;
    } else if y == 0x80000 {
      j := 19;
    } else if y == 0x100000 {
      j := 20;
    } else if y == 0x200000 {
      j := 21;
    } else if y == 0x400000 {
      j := 22;
    } else {
      assert y == 0x800000;
      j := 23;
    }
  }

  lemma RangeByte3(x: bv32, y: bv32) returns (j: nat)
    requires SingleBit(y) && 0x1000000 <= y <= 0x80000000 && (y >> 1) < x <= y
    ensures j < 32 && y as int == Powers[j]
    ensures j > 0 ==> Powers[j - 1] < x as int
    ensures x as int <= y as int
  {
    if y == 0x1000000 {
      j := 24;
    } else if y == 0x2000000 {
      j := 25;
    } else if y == 0x4000000 {
      j := 26;
    } else if y == 0x8000000 {
      j := 27;
    } else if y == 0x10000000 {
      j := 28;
    } else if y == 0x20000000 {
      j := 29;
    } else if y == 0x40000000 {
      j := 30;
    } else {
      assert y == 0x80000000;
      j := 31;
    }
  }

  lemma SingleBitRange(x: bv32, y: bv32) returns (j: nat)
    requires SingleBit(y) && (y >> 1) < x <= y
    ensures j < 32 && y as int == Powers[j]
    ensures j > 0 ==> Powers[j - 1] < x as int
    ensures x as int <= y as int
  {
    if y <= 0x80 {
      j := RangeByte0(x, y);
    } else if y <= 0x8000 {
      j := RangeByte1(x, y);
    } else if y <= 0x80_0000 {
      j := RangeByte2(x, y);
    } else {
      j := RangeByte3(x, y);
    }
  }

  /** n lies in (2^(j-1), 2^j]. */
  lemma LeastFromRange(n: nat, j: nat)
    requires j < 32 && (j > 0 ==> Powers[j - 1] < n) && n <= Powers[j]
    ensures LeastPow2(n) == Powers[j]
  {
    PowersArePow2(j);
    if j > 0 {
      PowersArePow2(j - 1);
    }
    CeilLog2Exact(n, j);
  }

  /** A power of two passes the test of flhex.c:76 and is its own round-up. */
  lemma RoundUpExact(x: bv32)
    requires SingleBit(x)
    ensures x as int == LeastPow2(x as int)
  {
    var j := SingleBitRange(x, x);
    LeastFromRange(x as int, j);
  }

  /** Anything else in [1, 2^31] is smeared up to the next power of two. */
  lemma RoundUpSmeared(x: bv32)
    requires 1 <= x <= 0x8000_0000 && !SingleBit(x)
    ensures (Smear(x) + 1) as int == LeastPow2(x as int)
  {
    SmearBits(x);
    var j := SingleBitRange(x, Smear(x) + 1);
    LeastFromRange(x as int, j);
  }

  /** The round-up of flhex.c:76-83 on a uint32: a power of two is kept,
      anything else is smeared and incremented. For 1 <= desired <= 2^31 the
      result is the least power of two that is at least desired (above 2^31
      the increment wraps to 0, which is why the caller must stay below). */
  method RoundUpPow2(desired: bv32) returns (r: bv32)
    requires 1 <= desired <= 0x8000_0000
    ensures r as int == LeastPow2(desired as int)
  {
    r := desired;
    if (r & (r - 1)) != 0 {
      r := r | (r >> 16);
      r := r | (r >> 8);
      r := r | (r >> 4);
      r := r | (r >> 2);
      r := r | (r >> 1);
      r := r + 1;
      assert r == Smear(desired) + 1;
      RoundUpSmeared(desired);
    } else {
      RoundUpExact(desired);
    }
  }
}
