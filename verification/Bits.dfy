/** Bitwise operations on unsigned words, bit by bit, and the mask form of alignUp, (v + (a - 1)) & ~(a - 1), used by
    the heap, the address space and the ELF loader. */
module Bits {
  import opened Arith
  import opened Bytes

  function Pow2(k: nat): (p: nat)
    ensures p >= 1
  {
    if k == 0 then 1 else 2 * Pow2(k - 1)
  }

  /** Bitwise AND of two words of `w` bits, one bit at a time. */
  function BitAnd(x: nat, y: nat, w: nat): (r: nat)
    ensures r <= x
  {
    if w == 0 then 0
    else (if x % 2 == 1 && y % 2 == 1 then 1 else 0) + 2 * BitAnd(x / 2, y / 2, w - 1)
  }

  /** Bitwise OR of two words of `w` bits. */
  function BitOr(x: nat, y: nat, w: nat): (r: nat)
    ensures r < Pow2(w)
  {
    if w == 0 then 0
    else (if x % 2 == 1 || y % 2 == 1 then 1 else 0) + 2 * BitOr(x / 2, y / 2, w - 1)
  }

  predicate Bit(x: nat, k: nat) { x / Pow2(k) % 2 == 1 }

  lemma BitOfHalf(x: nat, k: nat)
    requires k > 0
    ensures Bit(x, k) == Bit(x / 2, k - 1)
  {
    DivideTwice(x, 2, Pow2(k - 1));
  }

  /** AND and OR, bit by bit. */
  lemma {:induction false} AndOrBits(x: nat, y: nat, w: nat, k: nat)
    requires k < w
    ensures Bit(BitAnd(x, y, w), k) <==> Bit(x, k) && Bit(y, k)
    ensures Bit(BitOr(x, y, w), k) <==> Bit(x, k) || Bit(y, k)
  {
    var a, o := BitAnd(x, y, w), BitOr(x, y, w);
    assert a / 2 == BitAnd(x / 2, y / 2, w - 1) && o / 2 == BitOr(x / 2, y / 2, w - 1);
    if k == 0 {
      LowestBit(x);
      LowestBit(y);
      LowestBit(a);
      LowestBit(o);
    } else {
      hide BitAnd, BitOr, Bit;
      AndOrBits(x / 2, y / 2, w - 1, k - 1);
      BitOfHalf(x, k);
      BitOfHalf(y, k);
      BitOfHalf(a, k);
      BitOfHalf(o, k);
    }
  }

  lemma LowestBit(x: nat)
    ensures Bit(x, 0) <==> x % 2 == 1
  {
    assert x / Pow2(0) == x;
  }

  /** OR of words without common bits is their sum. */
  lemma {:induction false} OrDisjoint(low: nat, high: nat, k: nat, w: nat)
    requires k <= w && low < Pow2(k) && low + high * Pow2(k) < Pow2(w)
    ensures BitOr(low, high * Pow2(k), w) == low + high * Pow2(k)
  {
    hide BitOr;
    if k == 0 {
      assert low == 0 && high * Pow2(0) == high;
      OrWithZero(high, w);
    } else {
      var p := Pow2(k - 1);
      assert Pow2(k) == 2 * p && Pow2(w) == 2 * Pow2(w - 1);
      hide Pow2;
      MulAssoc(2, high, p);
      OrDisjoint(low / 2, high, k - 1, w - 1);
      OrWithEven(low, high * p, w);
    }
  }

  lemma OrWithEven(x: nat, y: nat, w: nat)
    requires w > 0
    ensures BitOr(x, 2 * y, w) == x % 2 + 2 * BitOr(x / 2, y, w - 1)
  {
    assert 2 * y / 2 == y && 2 * y % 2 == 0;
  }

  lemma {:induction false} OrWithZero(y: nat, w: nat)
    requires y < Pow2(w)
    ensures BitOr(0, y, w) == y
  {
    if w > 0 {
      OrWithZero(y / 2, w - 1);
    }
  }

  /** ~m on a 64-bit word. */
  function BitNot(m: nat): (r: nat)
    requires m < TWO64
    ensures r < TWO64
  {
    TWO64 - 1 - m
  }

  function AlignUp(v: nat, a: nat): (r: nat)
    requires v < TWO64 && 0 < a < TWO64
    ensures r < TWO64
  {
    BitAnd((v + (a - 1)) % TWO64, BitNot(a - 1), 64)
  }

  ghost predicate IsPowerOfTwo(a: nat) {
    exists k: nat :: k < 64 && Pow2(k) == a
  }

  ghost predicate IsLeastMultiple(r: nat, v: nat, a: nat)
    requires a > 0
  {
    r % a == 0 && v <= r && forall m: nat :: m % a == 0 && v <= m ==> r <= m
  }

  lemma {:induction false} MaskClearsLowBits(x: nat, k: nat, w: nat)
    requires k <= w && x < Pow2(w)
    ensures Pow2(k) <= Pow2(w)
    ensures BitAnd(x, Pow2(w) - Pow2(k), w) == x - x % Pow2(k)
  {
    if w > 0 {
      var high := Pow2(w) - Pow2(k);
      if k == 0 {
        MaskClearsLowBits(x / 2, 0, w - 1);
        assert high / 2 == Pow2(w - 1) - 1 && high % 2 == 1;
      } else {
        MaskClearsLowBits(x / 2, k - 1, w - 1);
        assert high / 2 == Pow2(w - 1) - Pow2(k - 1) && high % 2 == 0;
        HalveModulus(x, Pow2(k - 1));
      }
    }
  }

  lemma HalveModulus(x: nat, m: nat)
    requires m > 0
    ensures x % (2 * m) == 2 * (x / 2 % m) + x % 2
  {
    var q, r := x / 2 / m, x / 2 % m;
    assert x / 2 == q * m + r;
    assert x == q * (2 * m) + (2 * r + x % 2) by {
      assert x == 2 * (x / 2) + x % 2;
      assert 2 * (q * m) == q * (2 * m);
    }
    DivModUnique(x, 2 * m, q, 2 * r + x % 2);
  }

  lemma Pow2Add(i: nat, j: nat)
    ensures Pow2(i + j) == Pow2(i) * Pow2(j)
  {
    if i > 0 {
      Pow2Add(i - 1, j);
      assert 2 * (Pow2(i - 1) * Pow2(j)) == (2 * Pow2(i - 1)) * Pow2(j);
    }
  }

  lemma Pow2Of16()
    ensures Pow2(16) == 0x1_0000
  {
    assert Pow2(4) == 16 && Pow2(8) == 256;
    Pow2Add(8, 8);
  }

  lemma Pow2Of64()
    ensures Pow2(64) == TWO64
  {
    Pow2Of16();
    hide Pow2;
    Pow2Add(16, 16);
    Pow2Add(32, 32);
  }

  /** AlignUp in closed form: round up, or 0 once v + (a - 1) no longer fits in 64 bits. */
  lemma AlignUpClosedForm(v: nat, a: nat)
    requires v < TWO64 && IsPowerOfTwo(a)
    ensures 0 < a < TWO64
    ensures AlignUp(v, a) == if v + (a - 1) < TWO64 then (v + (a - 1)) - (v + (a - 1)) % a else 0
  {
    var k: nat :| k < 64 && Pow2(k) == a;
    hide Pow2, AlignUp;
    MaskRoundsDown(v, a, k);
    var s := v + (a - 1);
    if s < TWO64 {
      SmallMod(s, TWO64);
    } else {
      DivModUnique(s, TWO64, 1, s - TWO64);
      SmallMod(s - TWO64, a);
    }
  }

  lemma MaskRoundsDown(v: nat, a: nat, k: nat)
    requires v < TWO64 && k < 64 && Pow2(k) == a
    ensures 0 < a < TWO64
    ensures var x := (v + (a - 1)) % TWO64; AlignUp(v, a) == x - x % a
  {
    hide Pow2, BitAnd;
    Pow2Of64();
    Pow2StrictlyIncreasing(k, 64);
    assert BitNot(a - 1) == Pow2(64) - Pow2(k);
    MaskClearsLowBits((v + (a - 1)) % TWO64, k, 64);
  }

  lemma SmallMod(x: nat, a: nat)
    requires x < a
    ensures x % a == x
  {
    DivModUnique(x, a, 0, x);
  }

  lemma {:induction false} Pow2StrictlyIncreasing(k: nat, w: nat)
    requires k < w
    ensures Pow2(k) < Pow2(w)
  {
    if k + 1 < w {
      Pow2StrictlyIncreasing(k, w - 1);
    }
  }

  /** alignUp is the least multiple of the alignment at or above v exactly when v leaves room for it. */
  lemma AlignUpIsLeastMultipleIff(v: nat, a: nat)
    requires v < TWO64 && IsPowerOfTwo(a)
    ensures 0 < a < TWO64
    ensures IsLeastMultiple(AlignUp(v, a), v, a) <==> v <= TWO64 - a || v == 0
    ensures v > TWO64 - a ==> AlignUp(v, a) == 0
  {
    AlignUpClosedForm(v, a);
    if v + (a - 1) < TWO64 {
      RoundedUpIsLeast(v, a);
    }
  }

  lemma RoundedUpIsLeast(v: nat, a: nat)
    requires a > 0
    ensures var s := v + (a - 1); IsLeastMultiple(s - s % a, v, a) && s - s % a < v + a
  {
    var s := v + (a - 1);
    var q := s / a;
    assert s == q * a + s % a;
    MulMod(q, a);
    forall m: nat | m % a == 0 && v <= m ensures q * a <= m {
      NoMultipleBetween(m, q, a, s % a);
    }
  }

  lemma NoMultipleBetween(m: nat, q: nat, a: nat, r: nat)
    requires a > 0 && m % a == 0 && q * a + r < m + a
    ensures q * a <= m
  {
    var p := m / a;
    assert m == p * a;
    if p < q {
      MulStep(p, q, a);
    }
  }
}
