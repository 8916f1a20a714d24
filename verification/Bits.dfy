/**
 Bitwise operators on unsigned integers, written on `nat`, and the two power-of-two helpers
 of the buddy allocator.
 */
module Bits {

  const WORD := 0x1_0000_0000_0000_0000

  predicate IsPow2(n: nat)
  {
    n == 1 || (n > 1 && n % 2 == 0 && IsPow2(n / 2))
  }

  function Exp2(k: nat): (r: nat)
    ensures r >= 1
  {
    if k == 0 then 1 else 2 * Exp2(k - 1)
  }

  function And(a: nat, b: nat): nat
  {
    if a == 0 || b == 0 then 0
    else 2 * And(a / 2, b / 2) + (if a % 2 == 1 && b % 2 == 1 then 1 else 0)
  }

  function Or(a: nat, b: nat): nat
    decreases a + b
  {
    if a == 0 then b
    else if b == 0 then a
    else 2 * Or(a / 2, b / 2) + (if a % 2 == 1 || b % 2 == 1 then 1 else 0)
  }

  /** a >> k */
  function Shr(a: nat, k: nat): nat
    decreases k
  {
    if k == 0 then a else Shr(a / 2, k - 1)
  }

  /** `x & (x - 1)` is zero exactly for the powers of two (and for 0, which callers exclude). */
  lemma {:induction false} PowerOfTwoTest(x: nat)
    requires x > 0
    ensures And(x, x - 1) == 0 <==> IsPow2(x)
  {
    if x == 1 {
    } else if x % 2 == 1 {
      AndSelf(x / 2);
      assert x / 2 == (x - 1) / 2;
    } else {
      PowerOfTwoTest(x / 2);
      assert (x - 1) / 2 == x / 2 - 1;
    }
  }

  lemma {:induction false} AndSelf(x: nat)
    ensures And(x, x) == x
  {
    if x > 0 {
      AndSelf(x / 2);
    }
  }

  lemma {:induction false} OrRange(a: nat, b: nat, k: nat)
    requires a < Exp2(k) && b < Exp2(k)
    ensures a <= Or(a, b) < Exp2(k)
  {
    if k > 0 && a > 0 && b > 0 {
      OrRange(a / 2, b / 2, k - 1);
    }
  }

  lemma {:induction false} ShrAtMost(x: nat, k: nat)
    ensures Shr(x, k) <= x
  {
    if k > 0 {
      ShrAtMost(x / 2, k - 1);
    }
  }

  lemma {:induction false} ShrShr(x: nat, a: nat, b: nat)
    ensures Shr(Shr(x, a), b) == Shr(x, a + b)
    decreases a
  {
    if a > 0 {
      ShrShr(x / 2, a - 1, b);
    }
  }

  lemma {:induction false} ShrOr(a: nat, b: nat, k: nat)
    ensures Shr(Or(a, b), k) == Or(Shr(a, k), Shr(b, k))
    decreases k
  {
    if k > 0 {
      assert Or(a, b) / 2 == Or(a / 2, b / 2);
      ShrOr(a / 2, b / 2, k - 1);
    }
  }

  lemma {:induction false} ShrOnes(s: nat, m: nat)
    requires m <= s
    ensures Shr(Exp2(s) - 1, m) == Exp2(s - m) - 1
    decreases m
  {
    if m > 0 {
      assert (Exp2(s) - 1) / 2 == Exp2(s - 1) - 1;
      ShrOnes(s - 1, m - 1);
    }
  }

  /** Or-ing ones into the m low positions under a run of s ones makes one run of m + s ones. */
  lemma {:induction false} OrOnes(x: nat, m: nat, s: nat)
    requires Shr(x, m) == Exp2(s) - 1
    ensures Or(x, Exp2(m) - 1) == Exp2(m + s) - 1
    decreases m
  {
    if m > 0 {
      OrOnes(x / 2, m - 1, s);
      assert (Exp2(m) - 1) / 2 == Exp2(m - 1) - 1;
    }
  }

  lemma {:induction false} Exp2Grows(a: nat, b: nat)
    requires a < b
    ensures 2 * Exp2(a) <= Exp2(b)
  {
    if a + 1 < b {
      Exp2Grows(a, b - 1);
    }
  }

  lemma {:induction false} ShrZero(x: nat, k: nat)
    requires x < Exp2(k)
    ensures Shr(x, k) == 0
  {
    if k > 0 {
      ShrZero(x / 2, k - 1);
    }
  }

  lemma {:induction false} Exp2IsPow2(k: nat)
    ensures IsPow2(Exp2(k))
  {
    if k > 0 {
      Exp2IsPow2(k - 1);
    }
  }

  /** x has k + 1 bits, the top s of which are ones. */
  ghost predicate TopOnes(x: nat, k: nat, s: nat)
  {
    s <= k + 1 && Exp2(k) <= x < Exp2(k + 1) && Shr(x, k + 1 - s) == Exp2(s) - 1
  }

  function Min(a: nat, b: nat): nat
  {
    if a <= b then a else b
  }

  lemma {:induction false} TopBit(x: nat) returns (k: nat)
    requires x > 0
    ensures TopOnes(x, k, 1)
  {
    if x == 1 {
      k := 0;
    } else {
      var j := TopBit(x / 2);
      k := j + 1;
    }
  }

  function Smear(x: nat, s: nat): nat
  {
    Or(x, Shr(x, s))
  }

  /** The bits at and above position low, once a run of s ones has been smeared to t ones. */
  lemma SmearRun(x: nat, k: nat, s: nat, t: nat)
    requires 1 <= s <= k + 1 && t == Min(2 * s, k + 1) && Shr(x, k + 1 - s) == Exp2(s) - 1
    ensures Shr(Smear(x, s), k + 1 - t) == Exp2(t) - 1
  {
    var low := k + 1 - t;
    var hi := Shr(x, low);           // a t-bit number whose top s bits are ones
    assert Shr(hi, t - s) == Exp2(s) - 1 by { ShrShr(x, low, t - s); }
    assert Shr(hi, s) == Exp2(t - s) - 1 by {
      ShrShr(hi, t - s, 2 * s - t);
      ShrOnes(s, 2 * s - t);
    }
    assert Shr(Shr(x, s), low) == Shr(hi, s) by {
      ShrShr(x, s, low);
      ShrShr(x, low, s);
    }
    ShrOr(x, Shr(x, s), low);
    OrOnes(hi, t - s, s);
  }

  /** One smearing step x | x >> s doubles the run of ones at the top. */
  lemma SmearStep(x: nat, k: nat, s: nat)
    requires s >= 1 && TopOnes(x, k, Min(s, k + 1))
    ensures TopOnes(Smear(x, s), k, Min(2 * s, k + 1))
  {
    ShrAtMost(x, s);
    OrRange(x, Shr(x, s), k + 1);
    if s > k + 1 {
      Exp2Grows(k + 1, s);
      ShrZero(x, s);
      OrZero(x);
    } else {
      SmearRun(x, k, s, Min(2 * s, k + 1));
    }
  }

  lemma OrZero(x: nat)
    ensures Or(x, 0) == x
  {
  }

  function SmearAll(x: nat): nat
  {
    Smear(Smear(Smear(Smear(Smear(x, 1), 2), 4), 8), 16)
  }

  /** The run of ones after shifts by 1, 2, 4, 8 and 16 covers every bit of a 32-bit number. */
  lemma SmearCovers(x: nat, k: nat)
    requires TopOnes(x, k, 1) && k < 32
    ensures SmearAll(x) == Exp2(k + 1) - 1
  {
    SmearStep(x, k, 1);
    var x1 := Smear(x, 1);
    SmearStep(x1, k, 2);
    var x2 := Smear(x1, 2);
    SmearStep(x2, k, 4);
    var x3 := Smear(x2, 4);
    SmearStep(x3, k, 8);
    SmearStep(Smear(x3, 8), k, 16);
  }

  lemma Exp2At32And64()
    ensures Exp2(32) == 0x1_0000_0000 && Exp2(64) == WORD
  {
    assert Exp2(8) == 0x100;
    assert Exp2(16) == 0x1_0000;
    assert Exp2(24) == 0x100_0000;
    assert Exp2(32) == 0x1_0000_0000;
    assert Exp2(40) == 0x100_0000_0000;
    assert Exp2(48) == 0x1_0000_0000_0000;
    assert Exp2(56) == 0x100_0000_0000_0000;
  }

  lemma SmearSaturated(s: nat)
    ensures Smear(WORD - 1, s) == WORD - 1
  {
    Exp2At32And64();
    ShrAtMost(WORD - 1, s);
    OrRange(WORD - 1, Shr(WORD - 1, s), 64);
  }

  /** What the smearing of x, plus one, means for every x the callers can pass. */
  lemma SmearRoundsUp(x: nat)
    requires x < WORD
    ensures x < 0x1_0000_0000 ==> IsPow2(SmearAll(x) + 1) && x <= SmearAll(x) <= 2 * x && SmearAll(x) + 1 < WORD
    ensures x == WORD - 1 ==> SmearAll(x) == WORD - 1
  {
    Exp2At32And64();
    if x == WORD - 1 {
      SmearSaturated(1);
      SmearSaturated(2);
      SmearSaturated(4);
      SmearSaturated(8);
      SmearSaturated(16);
    } else if 0 < x < 0x1_0000_0000 {
      var k := TopBit(x);
      if k >= 32 {
        if k > 32 { Exp2Grows(32, k); }
        assert false;
      }
      SmearCovers(x, k);
      Exp2IsPow2(k + 1);
      if k + 1 < 64 { Exp2Grows(k + 1, 64); }
    }
  }

  /**
   Rounds up to a power of two by smearing the top bit of size - 1, on 64-bit unsigned words.
   The five shifts reach 32 bits, so the result is the least power of two at or above `size`
   for 1 <= size <= 2^32; size 0 wraps to 0.
   */
  method NextPowerOf2(size: nat) returns (r: nat)
    requires size < WORD
    ensures 1 <= size <= 0x1_0000_0000 ==> IsPow2(r) && size <= r < 2 * size
    ensures size == 0 ==> r == 0
  {
    var s := (size + WORD - 1) % WORD;
    assert s == if size == 0 then WORD - 1 else size - 1;
    SmearRoundsUp(s);
    s := Smear(s, 1);
    s := Smear(s, 2);
    s := Smear(s, 4);
    s := Smear(s, 8);
    s := Smear(s, 16);
    r := if s == WORD - 1 then 0 else s + 1;   // unsigned wrap-around
  }

  /** Bit i of a word. */
  predicate BitOf(w: nat, i: nat)
  {
    Shr(w, i) % 2 == 1
  }

  lemma {:induction false} Exp2Bit(k: nat, i: nat)
    ensures BitOf(Exp2(k), i) <==> i == k
    decreases i
  {
    if i > 0 {
      if k > 0 {
        assert Exp2(k) / 2 == Exp2(k - 1);
        Exp2Bit(k - 1, i - 1);
      } else {
        ShrZero(0, i - 1);
      }
    }
  }

  /** `w |= 1 << k` sets bit k and no other. */
  lemma OrBit(w: nat, k: nat, i: nat)
    ensures BitOf(Or(w, Exp2(k)), i) <==> i == k || BitOf(w, i)
  {
    ShrOr(w, Exp2(k), i);
    Exp2Bit(k, i);
  }

  // ----- the operators, bit by bit -----

  /** Bit 0 is the parity, and halving moves each bit down by one. */
  lemma BitMeaning(w: nat, i: nat)
    ensures BitOf(w, 0) <==> w % 2 == 1
    ensures BitOf(w, i + 1) <==> BitOf(w / 2, i)
  {
  }

  lemma {:induction false} AndBits(a: nat, b: nat, i: nat)
    ensures BitOf(And(a, b), i) <==> BitOf(a, i) && BitOf(b, i)
    decreases i
  {
    if a == 0 || b == 0 {
      ShrZero(0, i);
    } else if i > 0 {
      AndBits(a / 2, b / 2, i - 1);
    }
  }

  lemma {:induction false} OrBits(a: nat, b: nat, i: nat)
    ensures BitOf(Or(a, b), i) <==> BitOf(a, i) || BitOf(b, i)
    decreases i
  {
    if a == 0 || b == 0 {
      ShrZero(0, i);
    } else if i > 0 {
      OrBits(a / 2, b / 2, i - 1);
    }
  }

  lemma ShrBits(a: nat, k: nat, i: nat)
    ensures BitOf(Shr(a, k), i) <==> BitOf(a, k + i)
  {
    ShrShr(a, k, i);
  }

  lemma {:induction false} Pow2IsExp2(n: nat) returns (k: nat)
    requires IsPow2(n)
    ensures n == Exp2(k)
  {
    if n == 1 {
      k := 0;
    } else {
      k := Pow2IsExp2(n / 2);
      k := k + 1;
    }
  }
}
