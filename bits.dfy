/** Integer bit arithmetic of the degree-sequence generator: Python's `&` and
    `>>` on non-negative integers, and the SWAR population count `bitCount`
    proved against a bit-by-bit reference count. Every definition works one
    bit at a time (halving and doubling), so the proofs stay linear. */
module Bits {

  /** 2^k. */
  function Pow2(k: nat): (r: nat)
    ensures r >= 1
  {
    if k == 0 then 1 else 2 * Pow2(k - 1)
  }

  /** Python's `a >> k` on a non-negative integer. */
  function Shr(a: nat, k: nat): nat
  {
    if k == 0 then a else Shr(a / 2, k - 1)
  }

  /** Python's `a << k`. */
  function Shl(a: nat, k: nat): nat
  {
    if k == 0 then a else 2 * Shl(a, k - 1)
  }

  /** The low k bits of a, i.e. `a & (2^k - 1)`. */
  function Low(a: nat, k: nat): nat
  {
    if k == 0 then 0 else 2 * Low(a / 2, k - 1) + a % 2
  }

  /** 2^w - 1: w one-bits. */
  function Ones(w: nat): nat
  {
    if w == 0 then 0 else 2 * Ones(w - 1) + 1
  }

  /** Python's `a & b` on non-negative integers. */
  function And(a: nat, b: nat): nat
    decreases a
  {
    if a == 0 || b == 0 then 0
    else 2 * And(a / 2, b / 2) + (if a % 2 == 1 && b % 2 == 1 then 1 else 0)
  }

  /** Bit k of n, as Python computes `(n >> k) % 2`. */
  function Bit(n: nat, k: nat): nat
  {
    Shr(n, k) % 2
  }

  /** The number of 1-bits of n: the reference definition. */
  function PopCount(n: nat): nat
  {
    if n == 0 then 0 else n % 2 + PopCount(n / 2)
  }

  /** One line of bitCount: `((high & y) >> w) + (low & y)`. */
  function SwarStep(y: nat, w: nat, high: nat, low: nat): nat
  {
    Shr(And(high, y), w) + And(low, y)
  }

  /** bitCount: five SWAR steps with 32-bit masks. */
  function BitCount(n: nat): nat
  {
    var a := SwarStep(n, 1, 0xaaaaaaaa, 0x55555555);
    var b := SwarStep(a, 2, 0xcccccccc, 0x33333333);
    var c := SwarStep(b, 4, 0xf0f0f0f0, 0x0f0f0f0f);
    var d := SwarStep(c, 8, 0xff00ff00, 0x00ff00ff);
    SwarStep(d, 16, 0xffff0000, 0x0000ffff)
  }

  // ---------------------------------------------------------------------
  // Shifts and low parts

  lemma {:induction false} ShlIsMul(a: nat, k: nat)
    ensures Shl(a, k) == a * Pow2(k)
    decreases k
  {
    if k > 0 {
      ShlIsMul(a, k - 1);
    }
  }

  /** Every number is its high part shifted back plus its low part. */
  lemma {:induction false} Split(x: nat, p: nat)
    ensures x == Shl(Shr(x, p), p) + Low(x, p)
    ensures Shr(Low(x, p), p) == 0
    decreases p
  {
    if p > 0 {
      Split(x / 2, p - 1);
      ShlShr(Shr(x, p), p - 1);
    }
  }

  lemma {:induction false} ShlShr(z: nat, p: nat)
    ensures Shr(Shl(z, p), p) == z
    decreases p
  {
    if p > 0 {
      ShlShr(z, p - 1);
    }
  }

  /** Shifting out the low part recovers the high part, and vice versa. */
  lemma {:induction false} Join(z: nat, r: nat, p: nat)
    requires Shr(r, p) == 0
    ensures Shr(Shl(z, p) + r, p) == z
    ensures Low(Shl(z, p) + r, p) == r
    decreases p
  {
    if p == 0 {
    } else {
      Join(z, r / 2, p - 1);
      assert (Shl(z, p) + r) / 2 == Shl(z, p - 1) + r / 2;
      assert (Shl(z, p) + r) % 2 == r % 2;
      Split(r, p);
      JoinLow(r, p);
    }
  }

  lemma {:induction false} JoinLow(r: nat, p: nat)
    requires Shr(r, p) == 0
    ensures Low(r, p) == r
    decreases p
  {
    if p > 0 {
      JoinLow(r / 2, p - 1);
    }
  }

  lemma {:induction false} ShrShr(x: nat, a: nat, b: nat)
    ensures Shr(Shr(x, a), b) == Shr(x, a + b)
    decreases a
  {
    if a > 0 {
      ShrShr(x / 2, a - 1, b);
    }
  }

  lemma {:induction false} ShlShl(z: nat, a: nat, b: nat)
    ensures Shl(Shl(z, a), b) == Shl(z, a + b)
    decreases b
  {
    if b > 0 {
      ShlShl(z, a, b - 1);
    }
  }

  /** The low a+b bits, split at a. */
  lemma {:induction false} LowLow(x: nat, a: nat, b: nat)
    ensures Low(Low(x, a + b), a) == Low(x, a)
    ensures Shr(Low(x, a + b), a) == Low(Shr(x, a), b)
    decreases a
  {
    if a > 0 {
      LowLow(x / 2, a - 1, b);
    }
  }

  lemma {:induction false} SmallFits(n: nat, p: nat)
    requires n <= p
    ensures Shr(n, p) == 0
    decreases p
  {
    if p > 0 {
      SmallFits(n / 2, p - 1);
    }
  }

  // ---------------------------------------------------------------------
  // Properties of `&`

  /** `&` works block by block: the low p bits and the rest are independent. */
  lemma {:induction false} AndBlocks(x: nat, y: nat, p: nat)
    ensures And(x, y) == Shl(And(Shr(x, p), Shr(y, p)), p) + And(Low(x, p), Low(y, p))
    decreases p
  {
    if p > 0 {
      AndBlocks(x / 2, y / 2, p - 1);
    }
  }

  /** Masking with 2^w - 1 keeps the low w bits. */
  lemma {:induction false} AndOnes(w: nat, r: nat)
    ensures And(Ones(w), r) == Low(r, w)
    decreases w
  {
    if w > 0 {
      AndOnes(w - 1, r / 2);
    }
  }

  lemma AndZero(r: nat)
    ensures And(0, r) == 0
  {
  }

  /** Masking with m << w and shifting right by w is masking the shifted value with m. */
  lemma AndShifted(m: nat, w: nat, y: nat)
    ensures Shr(And(Shl(m, w), y), w) == And(m, Shr(y, w))
  {
    var a := And(m, Shr(y, w));
    AndBlocks(Shl(m, w), y, w);
    ShlShr(m, w);
    ShlLow(m, w);
    AndZero(Low(y, w));
    assert And(Shl(m, w), y) == Shl(a, w);
    ShlShr(a, w);
  }

  lemma {:induction false} ShlLow(z: nat, p: nat)
    ensures Low(Shl(z, p), p) == 0
    decreases p
  {
    if p > 0 {
      ShlLow(z, p - 1);
      assert Shl(z, p) / 2 == Shl(z, p - 1);
    }
  }

  // ---------------------------------------------------------------------
  // Population counts

  lemma {:induction false} PopCountBlocks(x: nat, w: nat)
    ensures PopCount(x) == PopCount(Shr(x, w)) + PopCount(Low(x, w))
    decreases w
  {
    if w > 0 {
      PopCountBlocks(x / 2, w - 1);
    }
  }

  lemma {:induction false} PopCountBound(x: nat, w: nat)
    requires Shr(x, w) == 0
    ensures PopCount(x) <= w
    decreases w
  {
    if w > 0 && x > 0 {
      PopCountBound(x / 2, w - 1);
    }
  }

  // ---------------------------------------------------------------------
  // The SWAR stages

  /** k blocks of width 2w, each with w one-bits in its low half. */
  function LowMask(w: nat, k: nat): nat
  {
    if k == 0 then 0 else Shl(LowMask(w, k - 1), 2 * w) + Ones(w)
  }

  /** One SWAR stage: add the high half of every 2w-bit block to its low half. */
  function Stage(y: nat, w: nat, k: nat): nat
  {
    SwarStep(y, w, Shl(LowMask(w, k), w), LowMask(w, k))
  }

  /** y holds k fields of width w, and each field of y is the number of
      1-bits in the same field of x. */
  ghost predicate Fields(y: nat, x: nat, w: nat, k: nat)
    decreases k
  {
    if k == 0 then y == 0 && x == 0
    else Low(y, w) == PopCount(Low(x, w)) && Fields(Shr(y, w), Shr(x, w), w, k - 1)
  }

  lemma OnesFit(w: nat)
    ensures Shr(Ones(w), w) == 0
  {
    AndOnes(w, Ones(w));
    Split(Ones(w), w);
    AndSelf(Ones(w));
  }

  lemma {:induction false} AndSelf(a: nat)
    ensures And(a, a) == a
    decreases a
  {
    if a > 0 {
      AndSelf(a / 2);
    }
  }

  /** Masking with the low mask keeps the low half of the lowest block and
      treats the remaining blocks independently. */
  lemma AndLowMask(w: nat, k: nat, z: nat)
    requires k > 0
    ensures And(LowMask(w, k), z)
         == Shl(And(LowMask(w, k - 1), Shr(z, 2 * w)), 2 * w) + Low(z, w)
  {
    OnesFit(w);
    SmallFitsWider(Ones(w), w, 2 * w);
    Join(LowMask(w, k - 1), Ones(w), 2 * w);
    AndBlocks(LowMask(w, k), z, 2 * w);
    AndOnes(w, Low(z, 2 * w));
    LowLow(z, w, w);
  }

  lemma SmallFitsWider(n: nat, p: nat, q: nat)
    requires Shr(n, p) == 0 && p <= q
    ensures Shr(n, q) == 0
  {
    ShrShr(n, p, q - p);
    ShrZero(q - p);
  }

  lemma {:induction false} ShrZero(k: nat)
    ensures Shr(0, k) == 0
    decreases k
  {
    if k > 0 {
      ShrZero(k - 1);
    }
  }

  lemma StageBlock(y: nat, w: nat, k: nat)
    requires k > 0
    ensures Stage(y, w, k)
         == Shl(Stage(Shr(y, 2 * w), w, k - 1), 2 * w) + (Low(y, w) + Low(Shr(y, w), w))
  {
    AndShifted(LowMask(w, k), w, y);
    AndShifted(LowMask(w, k - 1), w, Shr(y, 2 * w));
    AndLowMask(w, k, y);
    AndLowMask(w, k, Shr(y, w));
    ShrShr(y, w, 2 * w);
    ShrShr(y, 2 * w, w);
    ShlAdd(And(LowMask(w, k - 1), Shr(Shr(y, w), 2 * w)), And(LowMask(w, k - 1), Shr(y, 2 * w)), 2 * w);
  }

  lemma {:induction false} ShlAdd(a: nat, b: nat, k: nat)
    ensures Shl(a, k) + Shl(b, k) == Shl(a + b, k)
    decreases k
  {
    if k > 0 {
      ShlAdd(a, b, k - 1);
    }
  }

  /** A stage turns 2k fields of width w into k fields of width 2w. */
  lemma {:induction false} StageFields(y: nat, x: nat, w: nat, k: nat)
    requires w >= 1 && Fields(y, x, w, 2 * k)
    ensures Fields(Stage(y, w, k), x, 2 * w, k)
    decreases k
  {
    if k == 0 {
      assert y == 0 && x == 0;
      AndZero(0);
      ShlZero(w);
      ShrZero(w);
    } else {
      var f0, f1 := Low(y, w), Low(Shr(y, w), w);
      assert Fields(Shr(y, w), Shr(x, w), w, 2 * k - 1);
      assert Fields(Shr(Shr(y, w), w), Shr(Shr(x, w), w), w, 2 * k - 2);
      ShrShr(y, w, w);
      ShrShr(x, w, w);
      StageFields(Shr(y, 2 * w), Shr(x, 2 * w), w, k - 1);
      StageBlock(y, w, k);
      Split(x, w);
      Split(Shr(x, w), w);
      PopCountBound(Low(x, w), w);
      PopCountBound(Low(Shr(x, w), w), w);
      SmallFits(f0 + f1, 2 * w);
      Join(Stage(Shr(y, 2 * w), w, k - 1), f0 + f1, 2 * w);
      PopCountBlocks(Low(x, 2 * w), w);
      LowLow(x, w, w);
    }
  }

  lemma {:induction false} ShlZero(k: nat)
    ensures Shl(0, k) == 0
    decreases k
  {
    if k > 0 {
      ShlZero(k - 1);
    }
  }

  lemma {:induction false} SingleBitFields(x: nat, k: nat)
    requires Shr(x, k) == 0
    ensures Fields(x, x, 1, k)
    decreases k
  {
    if k == 0 {
    } else {
      SingleBitFields(x / 2, k - 1);
      assert PopCount(x % 2) == x % 2 by {
        assert PopCount(0) == 0;
        assert PopCount(1) == 1;
      }
    }
  }

  lemma {:induction false} OnesIsPow2(w: nat)
    ensures Ones(w) == Pow2(w) - 1
    decreases w
  {
    if w > 0 {
      OnesIsPow2(w - 1);
    }
  }

  lemma {:induction false} Pow2Add(a: nat, b: nat)
    ensures Pow2(a + b) == Pow2(a) * Pow2(b)
    decreases a
  {
    if a > 0 {
      Pow2Add(a - 1, b);
    }
  }

  lemma {:induction false} ShrBelow(n: nat, k: nat)
    requires n < Pow2(k)
    ensures Shr(n, k) == 0
    decreases k
  {
    if k > 0 {
      ShrBelow(n / 2, k - 1);
    }
  }

  lemma ClosedFormStep(l: int, p: int, t: int)
    requires l * (p + 1) == t - 1
    ensures (l * (p * p) + (p - 1)) * (p + 1) == t * (p * p) - 1
  {
    calc {
      (l * (p * p) + (p - 1)) * (p + 1);
      l * (p * p) * (p + 1) + (p - 1) * (p + 1);
      { assert l * (p * p) * (p + 1) == (l * (p + 1)) * (p * p); }
      (t - 1) * (p * p) + (p - 1) * (p + 1);
      t * (p * p) - 1;
    }
  }

  lemma MulStep(a: nat, k: nat)
    requires k > 0
    ensures a * k == a + a * (k - 1)
  {
  }

  /** Closed form of the masks: LowMask(w, k) * (2^w + 1) == 2^(2wk) - 1. */
  lemma {:induction false} LowMaskClosed(w: nat, k: nat)
    ensures LowMask(w, k) * (Pow2(w) + 1) == Pow2(2 * w * k) - 1
    decreases k
  {
    if k > 0 {
      var p, l := Pow2(w), LowMask(w, k - 1);
      var e := 2 * w * (k - 1);
      var t := Pow2(e);
      LowMaskClosed(w, k - 1);
      assert l * (p + 1) == t - 1;
      MulStep(2 * w, k);
      assert 2 * w * k == 2 * w + e;
      Pow2Add(2 * w, e);
      Pow2Add(w, w);
      assert Pow2(2 * w * k) == (p * p) * t;
      ShlIsMul(l, 2 * w);
      OnesIsPow2(w);
      assert LowMask(w, k) == l * (p * p) + (p - 1);
      ClosedFormStep(l, p, t);
    }
  }

  lemma Pow2Constants()
    ensures Pow2(1) == 2 && Pow2(2) == 4 && Pow2(4) == 16
    ensures Pow2(8) == 256 && Pow2(16) == 0x1_0000 && Pow2(32) == 0x1_0000_0000
  {
    assert Pow2(4) == 16;
    Pow2Add(4, 4);
    assert Pow2(8) == 256;
    Pow2Add(8, 8);
    assert Pow2(16) == 0x1_0000;
    Pow2Add(16, 16);
  }

  lemma Mask1()
    ensures LowMask(1, 16) == 0x55555555 && Shl(LowMask(1, 16), 1) == 0xaaaaaaaa
  {
    Pow2Constants();
    LowMaskClosed(1, 16);
    ShlIsMul(LowMask(1, 16), 1);
  }

  lemma Mask2()
    ensures LowMask(2, 8) == 0x33333333 && Shl(LowMask(2, 8), 2) == 0xcccccccc
  {
    Pow2Constants();
    LowMaskClosed(2, 8);
    ShlIsMul(LowMask(2, 8), 2);
  }

  lemma Mask4()
    ensures LowMask(4, 4) == 0x0f0f0f0f && Shl(LowMask(4, 4), 4) == 0xf0f0f0f0
  {
    Pow2Constants();
    LowMaskClosed(4, 4);
    ShlIsMul(LowMask(4, 4), 4);
  }

  lemma Mask8()
    ensures LowMask(8, 2) == 0x00ff00ff && Shl(LowMask(8, 2), 8) == 0xff00ff00
  {
    Pow2Constants();
    LowMaskClosed(8, 2);
    ShlIsMul(LowMask(8, 2), 8);
  }

  lemma Mask16()
    ensures LowMask(16, 1) == 0x0000ffff && Shl(LowMask(16, 1), 16) == 0xffff0000
  {
    Pow2Constants();
    LowMaskClosed(16, 1);
    ShlIsMul(LowMask(16, 1), 16);
  }

  lemma StageMasks(y: nat, w: nat, k: nat, low: nat, high: nat)
    requires LowMask(w, k) == low && Shl(low, w) == high
    ensures Stage(y, w, k) == SwarStep(y, w, high, low)
  {
  }

  /** bitCount is the five stages with the masks written out. */
  lemma BitCountStages(n: nat)
    ensures BitCount(n) == Stage(Stage(Stage(Stage(Stage(n, 1, 16), 2, 8), 4, 4), 8, 2), 16, 1)
  {
    var a := Stage(n, 1, 16);
    Mask1();
    StageMasks(n, 1, 16, 0x55555555, 0xaaaaaaaa);
    var b := Stage(a, 2, 8);
    Mask2();
    StageMasks(a, 2, 8, 0x33333333, 0xcccccccc);
    var c := Stage(b, 4, 4);
    Mask4();
    StageMasks(b, 4, 4, 0x0f0f0f0f, 0xf0f0f0f0);
    var d := Stage(c, 8, 2);
    Mask8();
    StageMasks(c, 8, 2, 0x00ff00ff, 0xff00ff00);
    Mask16();
    StageMasks(d, 16, 1, 0x0000ffff, 0xffff0000);
  }

  /** bitCount(n) is the number of 1-bits of n, for every n below 2^32. */
  lemma BitCountIsPopCount(n: nat)
    requires n < 0x1_0000_0000
    ensures BitCount(n) == PopCount(n)
  {
    Pow2Constants();
    ShrBelow(n, 32);
    SingleBitFields(n, 32);
    var a := Stage(n, 1, 16);
    StageFields(n, n, 1, 16);
    var b := Stage(a, 2, 8);
    StageFields(a, n, 2, 8);
    var c := Stage(b, 4, 4);
    StageFields(b, n, 4, 4);
    var d := Stage(c, 8, 2);
    StageFields(c, n, 8, 2);
    var e := Stage(d, 16, 1);
    StageFields(d, n, 16, 1);
    BitCountStages(n);
    FieldsWhole(e, n, 32);
  }

  /** A single field spanning all of x holds the number of 1-bits of x. */
  lemma FieldsWhole(y: nat, x: nat, w: nat)
    requires Fields(y, x, w, 1)
    ensures y == PopCount(x)
  {
    assert Shr(y, w) == 0 && Shr(x, w) == 0;
    JoinLow(y, w);
    JoinLow(x, w);
  }

  /** The unit tests of bitCount: 0 and 1 count themselves. */
  lemma BitCountSmall(n: nat)
    requires n <= 1
    ensures BitCount(n) == n
  {
    BitCountIsPopCount(n);
  }

  /** 2^k grows with k. */
  lemma {:induction false} Pow2Mono(a: nat, b: nat)
    requires a <= b
    ensures Pow2(a) <= Pow2(b)
    decreases b
  {
    if a < b {
      Pow2Mono(a, b - 1);
    }
  }

  /** A number below 2^m has at most m one-bits. */
  lemma PopCountBelow(n: nat, m: nat)
    requires n < Pow2(m)
    ensures PopCount(n) <= m
  {
    ShrBelow(n, m);
    PopCountBound(n, m);
  }

  /** 1564687 == 0x17e00f has 11 one-bits, counted two bits at a time. */
  lemma PopCountExample1()
    ensures PopCount(1564687) == 11
  {
    assert PopCount(5) == 2;
    assert PopCount(23) == 4;
    assert PopCount(95) == 6;
    assert PopCount(382) == 7;
    assert PopCount(1528) == 7;
    assert PopCount(6112) == 7;
    assert PopCount(24448) == 7;
    assert PopCount(97792) == 7;
    assert PopCount(391171) == 9;
  }

  /** 4578 == 0x11e2 has 6 one-bits. */
  lemma PopCountExample2()
    ensures PopCount(4578) == 6
  {
    assert PopCount(4) == 1;
    assert PopCount(17) == 2;
    assert PopCount(71) == 4;
    assert PopCount(286) == 5;
    assert PopCount(1144) == 5;
  }

  /** The unit tests of bitCount: bitCount(1564687) == 11 and bitCount(4578) == 6. */
  lemma BitCountExamples(n: nat, m: nat)
    requires n == 1564687 && m == 4578
    ensures BitCount(n) == 11 && BitCount(m) == 6
  {
    BitCountIsPopCount(n);
    PopCountExample1();
    BitCountIsPopCount(m);
    PopCountExample2();
  }

  // ---------------------------------------------------------------------
  // Numbers wider than the masks

  /** Masking a value that fits in k bits with a multiple of 2^k gives 0. */
  lemma AndAboveZero(a: nat, m: nat, k: nat)
    requires Shr(a, k) == 0
    ensures And(a, Shl(m, k)) == 0
  {
    AndBlocks(a, Shl(m, k), k);
    AndZero(Shr(Shl(m, k), k));
    ShlZero(k);
    ShlLow(m, k);
  }

  /** A SWAR step whose masks fit in 32 bits sees nothing of a multiple of 2^32. */
  lemma SwarStepAbove(m: nat, w: nat, high: nat, low: nat)
    requires high < 0x1_0000_0000 && low < 0x1_0000_0000
    ensures SwarStep(Shl(m, 32), w, high, low) == 0
  {
    Pow2Constants();
    ShrBelow(high, 32);
    ShrBelow(low, 32);
    AndAboveZero(high, m, 32);
    AndAboveZero(low, m, 32);
    ShrZero(w);
  }

  /** A SWAR step leaves 0 at 0. */
  lemma SwarStepZero(y: nat, w: nat, high: nat, low: nat)
    requires y == 0
    ensures SwarStep(y, w, high, low) == 0
  {
    ShrZero(w);
  }

  /** bitCount's masks are 32 bits wide, so every one-bit above bit 31 is
      lost: m * 2^32 has the one-bits of m, but bitCount counts none of them
      (for m == 1, the number 2^32 is counted as 0). */
  lemma BitCountDropsHighBits(m: nat)
    ensures PopCount(Shl(m, 32)) == PopCount(m) && BitCount(Shl(m, 32)) == 0
  {
    PopCountBlocks(Shl(m, 32), 32);
    ShlShr(m, 32);
    ShlLow(m, 32);
    SwarStepAbove(m, 1, 0xaaaaaaaa, 0x55555555);
    SwarChainZero(Shl(m, 32), 0xaaaaaaaa, 0x55555555, 0xcccccccc, 0x33333333,
                  0xf0f0f0f0, 0x0f0f0f0f, 0xff00ff00, 0x00ff00ff, 0xffff0000, 0x0000ffff);
  }

  /** Five SWAR steps leave 0 at 0 once the first has, whatever the masks. */
  lemma SwarChainZero(y: nat, h1: nat, l1: nat, h2: nat, l2: nat, h3: nat, l3: nat,
                      h4: nat, l4: nat, h5: nat, l5: nat)
    requires SwarStep(y, 1, h1, l1) == 0
    ensures SwarStep(SwarStep(SwarStep(SwarStep(SwarStep(y, 1, h1, l1), 2, h2, l2),
                                       4, h3, l3), 8, h4, l4), 16, h5, l5) == 0
  {
    var a := SwarStep(y, 1, h1, l1);
    SwarStepZero(a, 2, h2, l2);
    var b := SwarStep(a, 2, h2, l2);
    SwarStepZero(b, 4, h3, l3);
    var c := SwarStep(b, 4, h3, l3);
    SwarStepZero(c, 8, h4, l4);
    var d := SwarStep(c, 8, h4, l4);
    SwarStepZero(d, 16, h5, l5);
  }

  /** The low k bits of a number are below 2^k. */
  lemma {:induction false} LowBelow(n: nat, k: nat)
    ensures Low(n, k) < Pow2(k)
    decreases k
  {
    if k > 0 {
      LowBelow(n / 2, k - 1);
    }
  }

  /** Shifting right never makes a number larger. */
  lemma {:induction false} ShrAtMost(n: nat, k: nat)
    ensures Shr(n, k) <= n
    decreases k
  {
    if k > 0 {
      ShrAtMost(n / 2, k - 1);
    }
  }

  /** The one-bits of n, counted 32 bits at a time with bitCount's masks:
      the count bitCount's own description promises for every n. */
  function ChunkedBitCount(n: nat): (r: nat)
    ensures r == PopCount(n)
    decreases n
  {
    if n < 0x1_0000_0000 then
      BitCountIsPopCount(n);
      BitCount(n)
    else
      Pow2Constants();
      LowBelow(n, 32);
      BitCountIsPopCount(Low(n, 32));
      ShrAtMost(n / 2, 31);
      PopCountBlocks(n, 32);
      BitCount(Low(n, 32)) + ChunkedBitCount(Shr(n, 32))
  }
}
