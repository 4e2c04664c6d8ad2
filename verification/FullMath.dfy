/**
 * 512-bit multiplication and division: Math.mulDiv of P256SmartAccountFactory_Flattened.sol, which wraps,
 * and CustomFullMath.mulDiv of contracts/enclave-smart-account/paymaster/CustomFullMath.sol, whose
 * Solidity lines are checked and revert.
 */
module FullMath {
  import opened Options
  import opened Words
  import opened Congruence

  /** What both functions document: the exact quotient, and a revert on zero division or overflow. */
  function Quotient(x: nat, y: nat, d: nat): (r: Option<nat>) {
    if d > 0 && (x * y) / d < R then Some((x * y) / d) else None
  }

  // ---------------------------------------------------------------------------------------------
  // The double-width product by the Chinese remainder theorem

  /** The high word, reconstructed from the product modulo R and modulo R - 1. */
  function HighByCrt(mm: nat, prod0: nat): (r: nat) {
    WSub(WSub(mm, prod0), if mm < prod0 then 1 else 0)
  }

  lemma HighBound(x: nat, y: nat)
    requires x < R && y < R
    ensures MulHigh(x, y) <= R - 2
  {
    hide MulHigh, WMul;
    WordSize();
    ProductSplit(x, y);
    var h := MulHigh(x, y);
    if y == 0 {
      assert h * R <= 0;
      MulLess(h, 1, R);
    } else {
      assert x * y < R * y;
      assert h * R < y * R;
      MulLess(h, y, R);
    }
  }

  /** The product modulo R - 1 is the sum of its two words, less R - 1 at most once. */
  lemma ProductModNines(x: nat, y: nat)
    requires x < R && y < R
    ensures var s := MulHigh(x, y) + WMul(x, y);
      MulMod(x, y, R - 1) == if s < R - 1 then s else s - (R - 1)
  {
    hide MulHigh, WMul;
    WordSize();
    ProductSplit(x, y);
    HighBound(x, y);
    var h, l := MulHigh(x, y), WMul(x, y);
    assert x * y == h * (R - 1) + (h + l);
    if h + l < R - 1 {
      DivModUnique(x * y, h, h + l, R - 1);
    } else {
      assert h * (R - 1) + (R - 1) == (h + 1) * (R - 1);
      DivModUnique(x * y, h + 1, h + l - (R - 1), R - 1);
    }
  }

  /** The reconstruction is exact for all words. */
  lemma HighByCrtCorrect(x: nat, y: nat)
    requires x < R && y < R
    ensures HighByCrt(MulMod(x, y, R - 1), WMul(x, y)) == MulHigh(x, y)
  {
    hide MulHigh, WMul, MulMod, WSub;
    WordSize();
    HighBound(x, y);
    ProductSplit(x, y);
    ProductModNines(x, y);
    var mm, l := MulMod(x, y, R - 1), WMul(x, y);
    WSubSpec(mm, l);
    WSubSpec(WSub(mm, l), if mm < l then 1 else 0);
  }

  // ---------------------------------------------------------------------------------------------
  // Powers of two in the denominator

  lemma {:induction false} AndComplement(x: nat, w: nat)
    requires x < Pow2(w)
    ensures BitAnd(x, Pow2(w) - 1 - x) == 0
  {
    if x != 0 {
      var c := Pow2(w) - 1 - x;
      assert c / 2 == Pow2(w - 1) - 1 - x / 2;
      assert x % 2 == 0 || c % 2 == 0;
      AndComplement(x / 2, w - 1);
    }
  }

  /** d & (2^w - d) isolates the largest power of two that divides d. */
  lemma {:induction false} LowBit(d: nat, w: nat) returns (k: nat, odd: nat)
    requires 0 < d < Pow2(w)
    ensures k < w && BitAnd(d, Pow2(w) - d) == Pow2(k)
    ensures odd % 2 == 1 && d == Pow2(k) * odd
  {
    if d % 2 == 1 {
      AndOdd(d, w);
      k, odd := 0, d;
    } else {
      k, odd := LowBit(d / 2, w - 1);
      AndEven(d, w);
      DoubleProduct(Pow2(k), odd);
      k := k + 1;
    }
  }

  lemma AndOdd(d: nat, w: nat)
    requires d % 2 == 1 && d < Pow2(w)
    ensures BitAnd(d, Pow2(w) - d) == 1
  {
    var c := Pow2(w) - d;
    assert c / 2 == Pow2(w - 1) - 1 - d / 2 && c % 2 == 1;
    AndComplement(d / 2, w - 1);
  }

  lemma AndEven(d: nat, w: nat)
    requires d % 2 == 0 && 0 < d < Pow2(w)
    ensures d / 2 < Pow2(w - 1)
    ensures BitAnd(d, Pow2(w) - d) == 2 * BitAnd(d / 2, Pow2(w - 1) - d / 2)
  {
    var c := Pow2(w) - d;
    assert c / 2 == Pow2(w - 1) - d / 2 && c % 2 == 0;
  }

  function LargestPowerOfTwo(d: nat): (r: nat)
    requires d < R
  {
    BitAnd(d, WAdd(WNot(d), 1))
  }

  lemma LargestPowerOfTwoSpec(d: nat) returns (k: nat, odd: nat)
    requires 0 < d < R
    ensures k < 256 && LargestPowerOfTwo(d) == Pow2(k)
    ensures odd % 2 == 1 && d == Pow2(k) * odd
  {
    hide WAdd, BitAnd;
    WordSize();
    WordWidth();
    WAddSpec(R - 1 - d, 1);
    k, odd := LowBit(d, 256);
  }

  /** twos becomes 2^256 / twos, which is 0 as a word when twos is 1. */
  function FlipTwos(twos: nat): (r: nat) {
    WAdd(WDiv(WSub(0, twos), twos), 1)
  }

  lemma FlipTwosSpec(k: nat)
    requires k < 256
    ensures Pow2(k) * Pow2(256 - k) == R
    ensures FlipTwos(Pow2(k)) == if k == 0 then 0 else Pow2(256 - k)
  {
    hide WAdd, WSub, Pow2;
    WordWidth();
    Pow2Add(k, 256 - k);
    Pow2Positive(k);
    FlipFactor(Pow2(k), Pow2(256 - k));
  }

  lemma Pow2Positive(k: nat)
    ensures Pow2(k) == 1 <==> k == 0
  {
  }

  lemma FlipFactor(t: nat, f: nat)
    requires t > 0 && f > 0 && t * f == R
    ensures FlipTwos(t) == if t == 1 then 0 else f
  {
    hide WAdd, WSub;
    WordSize();
    FactorBelow(t, f);
    WSubSpec(0, t);
    assert R - t == (f - 1) * t;
    DivModUnique(R - t, f - 1, 0, t);
    WAddSpec(f - 1, 1);
    if t > 1 {
      assert t * f >= 2 * f;
    }
  }

  lemma FactorBelow(t: nat, f: nat)
    requires t > 0 && f > 0
    ensures t <= t * f && f <= t * f
  {
  }

  // ---------------------------------------------------------------------------------------------
  // The inverse modulo 2^256

  lemma XorTwo(a: nat)
    ensures BitXor(a, 2) == if (a / 2) % 2 == 0 then a + 2 else a - 2
  {
    if a != 0 && a / 2 != 0 {
      assert BitXor(a / 2, 1) == 2 * (a / 2 / 2) + (if (a / 2) % 2 != 1 then 1 else 0);
    }
  }

  /** A congruence of words holds modulo every power of two up to R. */
  lemma WordCong(a: int, m: int)
    requires m > 0 && R % m == 0
    ensures Cong(a % R, a, m)
  {
    WordSize();
    CongMod(a, R);
    assert m * (R / m) == R;
    CongFactor(a % R, a, m, R / m);
  }

  /** Flipping bit 1 of 3e, for each odd e below 16. */
  lemma SeedTable(e: nat, r: nat)
    requires e < 16 && e % 2 == 1 && r == (3 * e) % 16
    ensures var s := if (r / 2) % 2 == 0 then r + 2 else r - 2; 0 <= s < 16 && (e * s) % 16 == 1
  {
    assert e == 1 || e == 3 || e == 5 || e == 7 || e == 9 || e == 11 || e == 13 || e == 15;
  }

  lemma SeedResidue(m: nat)
    ensures var s := if (m / 2) % 2 == 0 then m + 2 else m - 2;
      s % 16 == if ((m % 16) / 2) % 2 == 0 then m % 16 + 2 else m % 16 - 2
  {
    var q, r := m / 16, m % 16;
    var h := r / 2;
    DivModUnique(m, 8 * q + h, r % 2, 2);
    DivModUnique(8 * q + h, 4 * q + h / 2, h % 2, 2);
    if h % 2 == 0 {
      DivModUnique(m + 2, q, r + 2, 16);
    } else {
      DivModUnique(m - 2, q, r - 2, 16);
    }
  }

  lemma TripleResidue(d: nat)
    ensures WMul(3, d) % 16 == (3 * (d % 16)) % 16
  {
    hide Cong;
    SixteenDivides();
    WordSize();
    WordCong(3 * d, 16);
    CongMod(d, 16);
    CongSym(d % 16, d, 16);
    CongRefl(3, 16);
    CongMul(3, 3, d, d % 16, 16);
    CongTrans(WMul(3, d), 3 * d, 3 * (d % 16), 16);
    CongSameMod(WMul(3, d), 3 * (d % 16), 16);
  }

  lemma OddResidue(d: nat)
    requires d % 2 == 1
    ensures (d % 16) % 2 == 1
  {
  }

  lemma SixteenDivides()
    ensures R % 16 == 0
  {
    WordValue();
  }

  /** The seed is an inverse modulo 16. */
  lemma SeedCorrect(d: nat)
    requires d % 2 == 1
    ensures Cong(d * BitXor(WMul(3, d), 2), 1, 16)
  {
    hide Cong, BitXor, WMul;
    var m := WMul(3, d);
    var s := BitXor(m, 2);
    XorTwo(m);
    TripleResidue(d);
    SeedResidue(m);
    OddResidue(d);
    SeedTable(d % 16, m % 16);
    ProductResidue(d, s, 16);
  }

  lemma ProductResidue(x: nat, y: nat, m: nat)
    requires m > 1 && ((x % m) * (y % m)) % m == 1
    ensures Cong(x * y, 1, m)
  {
    hide Cong;
    CongMod(x, m);
    CongSym(x % m, x, m);
    CongMod(y, m);
    CongSym(y % m, y, m);
    CongMul(x, x % m, y, y % m, m);
    DivModUnique(1, 0, 1, m);
    CongSameMod((x % m) * (y % m), 1, m);
    CongTrans(x * y, (x % m) * (y % m), 1, m);
  }

  /** One Newton step in wrapping arithmetic. */
  function Newton(d: nat, inv: nat): (r: nat) {
    WMul(inv, WSub(2, WMul(d, inv)))
  }

  lemma NewtonCong(d: nat, inv: nat, mm: int)
    requires mm > 0 && R % mm == 0
    ensures Cong(d * Newton(d, inv), d * (inv * (2 - d * inv)), mm)
  {
    hide Cong;
    var e := d * inv;
    var u: int := WMul(d, inv);
    var t: int := WSub(2, u);
    WordCong(e, mm);
    CongRefl(2, mm);
    CongSub(2, 2, u, e, mm);
    WordCong(2 - u, mm);
    CongTrans(t, 2 - u, 2 - e, mm);
    CongRefl(inv, mm);
    CongMul(inv, inv, t, 2 - e, mm);
    WordCong(inv * t, mm);
    var next := Newton(d, inv);
    CongTrans(next, inv * t, inv * (2 - e), mm);
    CongRefl(d, mm);
    CongMul(d, d, next, inv * (2 - e), mm);
  }

  lemma SquaredError(d: int, inv: int, k: int, m: int)
    requires d * inv - 1 == k * m
    ensures d * (inv * (2 - d * inv)) - 1 == -(k * k) * (m * m)
  {
    var e := d * inv;
    assert d * (inv * (2 - e)) == e * (2 - e);
    assert e * (2 - e) - 1 == -((e - 1) * (e - 1));
    assert (k * m) * (k * m) == (k * k) * (m * m);
  }

  /** Hensel lifting: a step doubles the number of correct bits. */
  lemma NewtonStep(d: nat, inv: nat, m: int)
    requires m > 0 && R % (m * m) == 0 && Cong(d * inv, 1, m)
    ensures Cong(d * Newton(d, inv), 1, m * m)
  {
    hide Newton;
    var k :| d * inv - 1 == k * m;
    hide Cong;
    SquaredError(d, inv, k, m);
    CongBy(d * (inv * (2 - d * inv)), 1, m * m, -(k * k));
    NewtonCong(d, inv, m * m);
    CongTrans(d * Newton(d, inv), d * (inv * (2 - d * inv)), 1, m * m);
  }

  function InverseByNewton(d: nat): (r: nat) {
    var seed := BitXor(WMul(3, d), 2);
    Newton(d, Newton(d, Newton(d, Newton(d, Newton(d, Newton(d, seed))))))
  }

  /** Six steps from the seed reach 2^256. */
  lemma InverseByNewtonCorrect(d: nat)
    requires d % 2 == 1 && d < R
    ensures Cong(d * InverseByNewton(d), 1, R)
  {
    hide Cong, Newton, BitXor, WMul;
    WordValue();
    SeedCorrect(d);
    var i0 := BitXor(WMul(3, d), 2);
    NewtonStep(d, i0, 0x10);
    var i1 := Newton(d, i0);
    NewtonStep(d, i1, 0x100);
    var i2 := Newton(d, i1);
    NewtonStep(d, i2, 0x10000);
    var i3 := Newton(d, i2);
    NewtonStep(d, i3, 0x100000000);
    var i4 := Newton(d, i3);
    NewtonStep(d, i4, 0x10000000000000000);
    var i5 := Newton(d, i4);
    NewtonStep(d, i5, 0x100000000000000000000000000000000);
  }

  // ---------------------------------------------------------------------------------------------
  // Exact division

  lemma QuotientBound(t: nat, h: nat, l: nat, r: nat, d: nat, q: nat, rem: nat)
    requires t == h * r + l && l < r && t == q * d + rem && rem < d
    ensures d > h <==> q < r
  {
    if d > h {
      MulMono(h + 1, d, r);
      assert (h + 1) * r == h * r + r;
      assert q * d < r * d;
      MulLess(q, r, d);
    } else {
      MulMono(d, h, r);
      assert (q + 1) * d == q * d + d;
      assert r * d < (q + 1) * d;
      MulLess(r, q + 1, d);
    }
  }

  /** The denominator exceeds the high word exactly when the quotient fits a word. */
  lemma QuotientFits(x: nat, y: nat, d: nat)
    requires d > 0
    ensures 0 <= (x * y) / d
    ensures d > MulHigh(x, y) <==> (x * y) / d < R
  {
    hide MulHigh, WMul;
    ProductSplit(x, y);
    var t := x * y;
    QuotientBound(t, MulHigh(x, y), WMul(x, y), R, d, t / d, t % d);
  }

  /** Subtracting the remainder from the double word. */
  lemma SubtractRemainder(h: nat, l: nat, rem: nat)
    requires 0 < h < R && l < R && rem < R
    ensures var prod1 := WSub(h, if rem > l then 1 else 0);
      var prod0 := WSub(l, rem);
      prod0 < R && prod1 <= h && prod1 * R + prod0 == h * R + l - rem
  {
    hide WSub;
    WordSize();
    WSubSpec(h, if rem > l then 1 else 0);
    WSubSpec(l, rem);
    assert (h - 1) * R == h * R - R;
  }

  lemma ProductOfWord(prod1: nat, t: nat, f: nat)
    requires t > 0 && f > 0 && t * f == R
    ensures WMul(prod1, f) == (prod1 % t) * f
    ensures prod1 * f == (prod1 / t) * R + (prod1 % t) * f
    ensures (prod1 % t) * f + f <= R
  {
    var q, r := prod1 / t, prod1 % t;
    assert prod1 == q * t + r;
    assert prod1 * f == (q * t) * f + r * f;
    assert (q * t) * f == q * (t * f);
    assert r * f + f == (r + 1) * f;
    assert (r + 1) * f <= t * f;
    assert r * f >= 0;
    DivModUnique(prod1 * f, q, r * f, R);
  }

  /** The low word of the double word divided by 2^k: shift right, and shift in the bits of the high word. */
  lemma ShiftDown(prod1: nat, prod0: nat, k: nat, whole: nat)
    requires prod0 < R && k < 256 && prod1 * R + prod0 == Pow2(k) * whole
    ensures BitOr(WDiv(prod0, Pow2(k)), WMul(prod1, FlipTwos(Pow2(k)))) == whole % R
  {
    hide WMul, BitOr, FlipTwos, Pow2;
    FlipTwosSpec(k);
    var t, f := Pow2(k), Pow2(256 - k);
    ShiftLow(prod1, prod0, t, f, whole);
    var a := prod0 / t;
    if k == 0 {
      Pow2Positive(0);
      MulByZero(prod1);
      OrZero(a);
      assert whole == prod1 * R + prod0;
      DivModUnique(whole, prod1, prod0, R);
    } else {
      ProductOfWord(prod1, t, f);
      OrDisjoint(a, prod1 % t, 256 - k);
      DivModUnique(whole, prod1 / t, a + (prod1 % t) * f, R);
    }
  }

  lemma ShiftLow(prod1: nat, prod0: nat, t: nat, f: nat, whole: nat)
    requires t > 0 && f > 0 && t * f == R && prod0 < R && prod1 * R + prod0 == t * whole
    ensures prod0 / t < f && whole == prod1 * f + prod0 / t
    ensures t == 1 ==> prod0 / t == prod0
  {
    var a := whole - prod1 * f;
    assert prod1 * (t * f) == t * (prod1 * f);
    assert prod0 == t * a by {
      assert t * a == t * whole - t * (prod1 * f);
    }
    NonNegativeFactor(t, a);
    MulLess(a, f, t);
    assert prod0 == a * t + 0;
    DivModUnique(prod0, a, 0, t);
  }

  lemma NonNegativeFactor(t: nat, a: int)
    requires t > 0 && t * a >= 0
    ensures a >= 0
  {
  }

  lemma MulByZero(x: nat)
    ensures WMul(x, 0) == 0
  {
    WordSize();
    DivModUnique(0, 0, 0, R);
  }

  lemma OrZero(a: nat)
    ensures BitOr(a, 0) == a
  {
  }

  /** Multiplying the exact quotient's low word by the inverse of the odd part recovers the quotient. */
  lemma DivideByInverse(q: nat, odd: nat, low: nat, inv: nat)
    requires q < R && low == (q * odd) % R && Cong(odd * inv, 1, R)
    ensures WMul(low, inv) == q
  {
    hide Cong;
    WordSize();
    CongMod(q * odd, R);
    CongRefl(inv, R);
    CongMul(low, q * odd, inv, inv, R);
    CongRefl(q, R);
    CongMul(q, q, odd * inv, 1, R);
    assert (q * odd) * inv == q * (odd * inv);
    CongTrans(low * inv, q * (odd * inv), q * 1, R);
    ModUnique(low * inv, q, R);
  }

  /** The words after subtracting the remainder, before the powers of two are removed. */
  function ExactHigh(h: nat, l: nat, rem: nat): (r: nat) {
    WSub(h, if rem > l then 1 else 0)
  }

  /** The low word after dividing by the power of two. */
  function ExactLow(h: nat, l: nat, rem: nat, twos: nat): (r: nat) {
    BitOr(WDiv(WSub(l, rem), twos), WMul(ExactHigh(h, l, rem), FlipTwos(twos)))
  }

  lemma ExactLowIs(h: nat, l: nat, rem: nat, k: nat, whole: nat)
    requires 0 < h < R && l < R && rem < R && k < 256 && h * R + l - rem == Pow2(k) * whole
    ensures ExactHigh(h, l, rem) <= h
    ensures ExactLow(h, l, rem, Pow2(k)) == whole % R
  {
    hide WMul, WSub, WDiv, BitOr, FlipTwos, Pow2;
    SubtractRemainder(h, l, rem);
    ShiftDown(ExactHigh(h, l, rem), WSub(l, rem), k, whole);
  }

  /** The 512-by-256 branch up to the inverse, for a product (h, l) = q * d + rem. */
  lemma WideBranch(h: nat, l: nat, d: nat, q: nat, rem: nat) returns (k: nat, odd: nat)
    requires 0 < h < d < R && l < R && rem < d && h * R + l == q * d + rem
    ensures k < 256 && odd % 2 == 1 && odd < R && d == Pow2(k) * odd && LargestPowerOfTwo(d) == Pow2(k)
    ensures WDiv(d, Pow2(k)) == odd
    ensures ExactHigh(h, l, rem) <= h
    ensures ExactLow(h, l, rem, Pow2(k)) == (q * odd) % R
  {
    hide ExactHigh, ExactLow, Pow2, LargestPowerOfTwo;
    k, odd := LargestPowerOfTwoSpec(d);
    FactorBelow(Pow2(k), odd);
    DivModUnique(d, odd, 0, Pow2(k));
    SwapFactors(q, Pow2(k), odd);
    ExactLowIs(h, l, rem, k, q * odd);
  }

  // ---------------------------------------------------------------------------------------------
  // Math.mulDiv, which wraps

  lemma DivideWith(t: nat, d: nat)
    requires d > 0
    ensures t / d >= 0 && 0 <= t % d < d && t == (t / d) * d + t % d
  {
  }

  /** The quotient and remainder of the product, and what the wide branch makes of its words. */
  lemma WideProduct(x: nat, y: nat, d: nat) returns (k: nat, odd: nat)
    requires x < R && y < R && d < R && 0 < MulHigh(x, y) < d
    ensures k < 256 && odd % 2 == 1 && odd < R && LargestPowerOfTwo(d) == Pow2(k)
    ensures WDiv(d, Pow2(k)) == odd
    ensures ExactHigh(MulHigh(x, y), WMul(x, y), MulMod(x, y, d)) <= MulHigh(x, y)
    ensures ExactLow(MulHigh(x, y), WMul(x, y), MulMod(x, y, d), Pow2(k)) == (((x * y) / d) * odd) % R
  {
    hide WMul, MulHigh, ExactHigh, ExactLow, Pow2, LargestPowerOfTwo;
    ProductSplit(x, y);
    DivideWith(x * y, d);
    k, odd := WideBranch(MulHigh(x, y), WMul(x, y), d, (x * y) / d, MulMod(x, y, d));
  }

  lemma NarrowProduct(x: nat, y: nat)
    requires MulHigh(x, y) == 0
    ensures WMul(x, y) == x * y
  {
    hide WMul, MulHigh;
    ProductSplit(x, y);
  }

  /** The low word times the lifted inverse is the quotient. */
  lemma WideResult(x: nat, y: nat, d: nat) returns (k: nat, odd: nat)
    requires x < R && y < R && d < R && 0 < MulHigh(x, y) < d
    ensures LargestPowerOfTwo(d) == Pow2(k) && WDiv(d, Pow2(k)) == odd
    ensures var low := ExactLow(MulHigh(x, y), WMul(x, y), MulMod(x, y, d), Pow2(k));
      WMul(low, InverseByNewton(odd)) == (x * y) / d
  {
    hide *;
    k, odd := WideProduct(x, y, d);
    QuotientFits(x, y, d);
    InverseByNewtonCorrect(odd);
    var q: nat := (x * y) / d;
    DivideByInverse(q, odd, ExactLow(MulHigh(x, y), WMul(x, y), MulMod(x, y, d), Pow2(k)),
                    InverseByNewton(odd));
  }

  /** The 512-by-256 branch in wrapping arithmetic. */
  method MulDivWide(x: nat, y: nat, denominator: nat, low: nat, high: nat) returns (result: nat)
    requires x < R && y < R && 0 < high < denominator < R
    requires low == WMul(x, y) && high == MulHigh(x, y)
    ensures result == (x * y) / denominator
  {
    hide *;
    ghost var k, odd := WideResult(x, y, denominator);
    var prod0, prod1, d := low, high, denominator;
    var remainder := MulMod(x, y, d);
    var twos := LargestPowerOfTwo(d);
    Stages(prod1, prod0, remainder, twos);
    prod1 := WSub(prod1, if remainder > prod0 then 1 else 0);
    prod0 := WSub(prod0, remainder);
    d := WDiv(d, twos);
    prod0 := WDiv(prod0, twos);
    twos := FlipTwos(twos);
    prod0 := BitOr(prod0, WMul(prod1, twos));

    NewtonChain(d);
    var inverse := BitXor(WMul(3, d), 2);
    inverse := Newton(d, inverse);
    inverse := Newton(d, inverse);
    inverse := Newton(d, inverse);
    inverse := Newton(d, inverse);
    inverse := Newton(d, inverse);
    inverse := Newton(d, inverse);
    result := WMul(prod0, inverse);
  }

  /** floor(x * y / denominator) for all words; reverts exactly on zero division and on overflow. */
  method MulDiv(x: nat, y: nat, denominator: nat) returns (result: Option<nat>)
    requires x < R && y < R && denominator < R
    ensures result == Quotient(x, y, denominator)
  {
    QuotientDefined(x, y, denominator);
    hide *;
    WordSize();
    var mm := MulMod(x, y, R - 1);
    var prod0 := WMul(x, y);
    var prod1 := WSub(WSub(mm, prod0), if mm < prod0 then 1 else 0);
    CrtWords(x, y);
    if denominator > 0 {
      QuotientFits(x, y, denominator);
    }
    if prod1 == 0 {
      NarrowProduct(x, y);
      if denominator == 0 { return None; }
      return Some(prod0 / denominator);
    }
    if !(denominator > prod1) { return None; }

    var wide := MulDivWide(x, y, denominator, prod0, prod1);
    return Some(wide);
  }

  lemma QuotientDefined(x: nat, y: nat, d: nat)
    ensures Quotient(x, y, d) == if d > 0 && (x * y) / d < R then Some((x * y) / d) else None
  {
  }

  lemma Stages(h: nat, l: nat, rem: nat, twos: nat)
    ensures ExactHigh(h, l, rem) == WSub(h, if rem > l then 1 else 0)
    ensures ExactLow(h, l, rem, twos)
         == BitOr(WDiv(WSub(l, rem), twos), WMul(WSub(h, if rem > l then 1 else 0), FlipTwos(twos)))
  {
    hide WSub, WMul, BitOr, FlipTwos, WDiv;
  }

  lemma CrtWords(x: nat, y: nat)
    requires x < R && y < R
    ensures var mm, prod0 := MulMod(x, y, R - 1), WMul(x, y);
      WSub(WSub(mm, prod0), if mm < prod0 then 1 else 0) == MulHigh(x, y)
  {
    hide WMul, MulMod, WSub, MulHigh;
    HighByCrtCorrect(x, y);
  }

  lemma NewtonChain(d: nat)
    ensures var seed := BitXor(WMul(3, d), 2);
      InverseByNewton(d) == Newton(d, Newton(d, Newton(d, Newton(d, Newton(d, Newton(d, seed))))))
  {
    hide Newton, BitXor, WMul;
  }

  // ---------------------------------------------------------------------------------------------
  // CustomFullMath.mulDiv, whose Solidity lines revert on overflow

  ghost predicate IsPowerOfTwo(d: nat) {
    exists k: nat :: d == Pow2(k)
  }

  /** The inputs on which the checked code returns. */
  ghost predicate CheckedReturns(a: nat, b: nat, d: nat) {
    d > 0 && (a * b < R || (IsPowerOfTwo(d) && MulHigh(a, b) < d))
  }

  ghost function CheckedQuotient(a: nat, b: nat, d: nat): (r: Option<nat>) {
    if CheckedReturns(a, b, d) then Some((a * b) / d) else None
  }

  /** inv *= 2 - d * inv in checked arithmetic. */
  function CheckedNewton(d: nat, inv: nat): (r: Option<nat>) {
    if d * inv >= R || d * inv > 2 || inv * (2 - d * inv) >= R then None
    else Some(inv * (2 - d * inv))
  }

  /** The same line written n times. */
  function CheckedNewtons(d: nat, inv: nat, n: nat): (r: Option<nat>)
    decreases n
  {
    if n == 0 then Some(inv) else
      match CheckedNewton(d, inv)
      case None => None
      case Some(next) => CheckedNewtons(d, next, n - 1)
  }

  lemma HighZero(a: nat, b: nat)
    ensures MulHigh(a, b) == 0 <==> a * b < R
  {
    hide MulHigh, WMul;
    WordSize();
    ProductSplit(a, b);
    if MulHigh(a, b) > 0 {
      MulMono(1, MulHigh(a, b), R);
    }
  }

  /** A power of two has odd part one. */
  lemma PowerOfTwoIff(d: nat, k: nat, odd: nat)
    requires odd % 2 == 1 && d == Pow2(k) * odd
    ensures IsPowerOfTwo(d) <==> odd == 1
  {
    if odd == 1 {
      assert d == Pow2(k);
    } else if IsPowerOfTwo(d) {
      var j: nat :| d == Pow2(j);
      FactorBelow(Pow2(k), odd);
      if j < k {
        Pow2Grows(j, k);
      } else {
        Pow2Add(k, j - k);
        CancelPow(Pow2(k), odd, Pow2(j - k));
      }
    }
  }

  lemma CancelPow(t: nat, x: nat, y: nat)
    requires t > 0 && t * x == t * y
    ensures x == y
  {
  }

  lemma {:induction false} Pow2Grows(j: nat, k: nat)
    requires j < k
    ensures Pow2(j) < Pow2(k)
  {
    if j + 1 < k {
      Pow2Grows(j, k - 1);
    }
  }

  /** Newton on one: the seed is already the inverse, and no step overflows. */
  lemma {:induction false} NewtonOnOne(n: nat)
    ensures CheckedNewtons(1, BitXor(3 * 1, 2), n) == Some(1)
  {
    XorTwo(3);
    if n > 0 {
      NewtonOnOne(n - 1);
    }
  }

  /** For an odd part above one the first Newton step underflows. */
  lemma NewtonUnderflows(odd: nat)
    requires odd % 2 == 1 && odd > 1
    ensures CheckedNewtons(odd, BitXor(3 * odd, 2), 6) == None
  {
    hide BitXor;
    XorTwo(3 * odd);
    var inv := BitXor(3 * odd, 2);
    assert inv >= 7;
    assert odd * inv >= 3 * inv;
  }

  lemma NoOverflow(h: nat, k: nat)
    requires h < Pow2(k) && 0 < k < 256
    ensures h * FlipTwos(Pow2(k)) < R
    ensures WMul(h, FlipTwos(Pow2(k))) == h * FlipTwos(Pow2(k))
  {
    hide FlipTwos, Pow2, WMul;
    FlipTwosSpec(k);
    var t, f := Pow2(k), Pow2(256 - k);
    MulMono(h + 1, t, f);
    assert (h + 1) * f == h * f + f;
    WMulSmall(h, f);
  }

  /** The wide branch when the denominator is 2^k: nothing overflows, and the low word is the quotient. */
  lemma PowerBranch(high: nat, low: nat, rem: nat, k: nat, q: nat)
    requires 0 < high < Pow2(k) && k < 256 && q < R
    requires ExactHigh(high, low, rem) <= high
    requires ExactLow(high, low, rem, Pow2(k)) == q % R
    ensures ExactHigh(high, low, rem) * FlipTwos(Pow2(k)) < R
    ensures BitOr(WDiv(WSub(low, rem), Pow2(k)), ExactHigh(high, low, rem) * FlipTwos(Pow2(k))) == q
  {
    hide *;
    Pow2Positive(k);
    Stages(high, low, rem, Pow2(k));
    NoOverflow(ExactHigh(high, low, rem), k);
    DivModUnique(q, 0, q, R);
  }

  lemma WMulSmall(a: nat, b: nat)
    requires a * b < R
    ensures WMul(a, b) == a * b
  {
    DivModUnique(a * b, 0, a * b, R);
  }

  /** The parts of a wide denominator, and its kind. */
  lemma WideKind(a: nat, b: nat, d: nat) returns (k: nat, odd: nat, q: nat)
    requires a < R && b < R && d < R && 0 < MulHigh(a, b) < d
    ensures k < 256 && odd % 2 == 1 && BitAnd(WNot(d) + 1, d) == Pow2(k) && WDiv(d, Pow2(k)) == odd
    ensures q == (a * b) / d && q < R && WNot(d) + 1 < R
    ensures ExactHigh(MulHigh(a, b), WMul(a, b), MulMod(a, b, d)) <= MulHigh(a, b)
    ensures ExactLow(MulHigh(a, b), WMul(a, b), MulMod(a, b, d), Pow2(k)) == (q * odd) % R
    ensures CheckedReturns(a, b, d) <==> odd == 1
    ensures odd == 1 ==> MulHigh(a, b) < Pow2(k)
  {
    hide *;
    ProductSplit(a, b);
    QuotientFits(a, b, d);
    q := (a * b) / d;
    var rem := MulMod(a, b, d);
    DivisionOf(a, b, d);
    k, odd := WideBranch(MulHigh(a, b), WMul(a, b), d, q, rem);
    KindIff(a, b, d, k, odd);
    TwosCommute(d);
  }

  lemma DivisionOf(a: nat, b: nat, d: nat)
    requires d > 0
    ensures a * b == ((a * b) / d) * d + MulMod(a, b, d) && MulMod(a, b, d) < d
  {
  }

  lemma KindIff(a: nat, b: nat, d: nat, k: nat, odd: nat)
    requires 0 < MulHigh(a, b) < d && odd % 2 == 1 && d == Pow2(k) * odd
    ensures CheckedReturns(a, b, d) <==> odd == 1
    ensures odd == 1 ==> d == Pow2(k)
  {
    hide MulHigh, Pow2, IsPowerOfTwo;
    HighZero(a, b);
    PowerOfTwoIff(d, k, odd);
  }

  lemma TwosCommute(d: nat)
    requires 0 < d < R
    ensures LargestPowerOfTwo(d) == BitAnd(WNot(d) + 1, d) && WNot(d) + 1 < R
  {
    hide BitAnd, WAdd;
    WordSize();
    WAddSpec(WNot(d), 1);
    AndCommutes(d, WNot(d) + 1);
  }

  /** The 512-by-256 branch in checked arithmetic: it returns only when the odd part is one. */
  method CheckedWide(a: nat, b: nat, denominator: nat, low: nat, high: nat) returns (result: Option<nat>)
    requires a < R && b < R && 0 < high < denominator < R
    requires low == WMul(a, b) && high == MulHigh(a, b)
    ensures result == CheckedQuotient(a, b, denominator)
  {
    hide WMul, MulHigh, WSub, WDiv, FlipTwos, BitOr, BitXor, BitAnd, MulMod, WNot, ExactHigh, ExactLow, Pow2,
      CheckedNewton, CheckedNewtons, CheckedQuotient, CheckedReturns, IsPowerOfTwo;
    WordSize();
    ghost var k, odd, q := WideKind(a, b, denominator);
    QuotientOf(a, b, denominator);
    var prod0, prod1, d := low, high, denominator;
    var remainder := MulMod(a, b, d);
    var twos := BitAnd(WNot(d) + 1, d);
    Stages(prod1, prod0, remainder, twos);
    if odd == 1 {
      PowerBranch(prod1, prod0, remainder, k, q);
      NewtonOnOne(6);
    } else {
      NewtonUnderflows(odd);
    }
    prod1 := WSub(prod1, if remainder > prod0 then 1 else 0);
    prod0 := WSub(prod0, remainder);
    d := WDiv(d, twos);
    prod0 := WDiv(prod0, twos);
    twos := FlipTwos(twos);
    if prod1 * twos >= R { return None; }
    prod0 := BitOr(prod0, prod1 * twos);
    if 3 * d >= R { return None; }
    var inv := CheckedNewtons(d, BitXor(3 * d, 2), 6);
    if inv == None { return None; }
    if prod0 * inv.value >= R { return None; }
    return Some(prod0 * inv.value);
  }

  lemma QuotientOf(a: nat, b: nat, d: nat)
    ensures CheckedQuotient(a, b, d) == if CheckedReturns(a, b, d) then Some((a * b) / d) else None
  {
  }

  /** CustomFullMath.mulDiv: the exact set of inputs on which it returns, and floor(a * b / denominator) there. */
  method CheckedMulDiv(a: nat, b: nat, denominator: nat) returns (result: Option<nat>)
    requires a < R && b < R && denominator < R
    ensures result == CheckedQuotient(a, b, denominator)
  {
    hide *;
    WordSize();
    QuotientOf(a, b, denominator);
    HighZero(a, b);
    var mm := MulMod(a, b, R - 1);
    var prod0 := WMul(a, b);
    var prod1 := WSub(WSub(mm, prod0), if mm < prod0 then 1 else 0);
    CrtWords(a, b);
    NarrowReturns(a, b, denominator);
    if prod1 == 0 {
      NarrowProduct(a, b);
      if !(denominator > 0) { return None; }
      return Some(WDiv(prod0, denominator));
    }
    if !(denominator > prod1) { return None; }
    result := CheckedWide(a, b, denominator, prod0, prod1);
  }

  lemma NarrowReturns(a: nat, b: nat, d: nat)
    ensures a * b < R ==> (CheckedReturns(a, b, d) <==> d > 0)
    ensures a * b >= R && d <= MulHigh(a, b) ==> !CheckedReturns(a, b, d)
    ensures d > 0 ==> WDiv(a * b, d) == (a * b) / d
  {
    hide MulHigh;
  }

  /** The least integer that is at least a * b / d. */
  function Ceiling(t: nat, d: nat): (r: nat)
    requires d > 0
  {
    (t + d - 1) / d
  }

  /** The ceiling is the least c with t <= c * d. */
  lemma CeilingLeast(t: nat, d: nat, c: nat)
    requires d > 0
    ensures Ceiling(t, d) <= c <==> t <= c * d
  {
    var q := Ceiling(t, d);
    DivideWith(t + d - 1, d);
    if q <= c {
      MulMono(q, c, d);
    } else {
      MulMono(c + 1, q, d);
      assert (c + 1) * d == c * d + d;
    }
  }

  lemma CeilingSpec(t: nat, d: nat)
    requires d > 0
    ensures Ceiling(t, d) == t / d + (if t % d > 0 then 1 else 0)
  {
    var q, r := t / d, t % d;
    assert t == q * d + r;
    if r == 0 {
      DivModUnique(t + d - 1, q, d - 1, d);
    } else {
      assert (q + 1) * d == q * d + d;
      DivModUnique(t + d - 1, q + 1, r - 1, d);
    }
  }

  lemma ReturnsBelow(a: nat, b: nat, d: nat)
    ensures CheckedReturns(a, b, d) ==> d > 0
  {
  }

  /** mulDivRoundingUp: the ceiling, wherever mulDiv returns and the ceiling fits a word. */
  method CheckedMulDivRoundingUp(a: nat, b: nat, denominator: nat) returns (result: Option<nat>)
    requires a < R && b < R && denominator < R
    ensures CheckedReturns(a, b, denominator) ==> denominator > 0
    ensures result == if CheckedReturns(a, b, denominator) && Ceiling(a * b, denominator) < R
                      then Some(Ceiling(a * b, denominator)) else None
  {
    ReturnsBelow(a, b, denominator);
    hide *;
    QuotientOf(a, b, denominator);
    var quotient := CheckedMulDiv(a, b, denominator);
    if quotient == None { return None; }
    CeilingSpec(a * b, denominator);
    RemainderOf(a, b, denominator);
    QuotientInWord(a, b, denominator);
    var value := quotient.value;
    if MulMod(a, b, denominator) > 0 {
      if !(value < R - 1) { return None; }
      value := value + 1;
    }
    return Some(value);
  }

  lemma RemainderOf(a: nat, b: nat, d: nat)
    requires d > 0
    ensures MulMod(a, b, d) == (a * b) % d
  {
  }

  lemma QuotientInWord(a: nat, b: nat, d: nat)
    requires CheckedReturns(a, b, d)
    ensures 0 <= (a * b) / d < R
  {
    hide MulHigh, IsPowerOfTwo;
    QuotientFits(a, b, d);
    HighZero(a, b);
  }

  /** The checked code meets its documentation exactly off the wide denominators with an odd factor. */
  lemma CheckedMeetsDocumentation(a: nat, b: nat, d: nat)
    ensures CheckedQuotient(a, b, d) == Quotient(a, b, d)
       <==> a * b < R || d <= MulHigh(a, b) || IsPowerOfTwo(d)
  {
    hide MulHigh, IsPowerOfTwo;
    HighZero(a, b);
    if d > 0 {
      QuotientFits(a, b, d);
    }
  }

  /** A quotient that fits a word, on which the checked code reverts. */
  lemma CheckedRevertsOnThirds()
    ensures Quotient(HALF, 3, 3) == Some(HALF)
    ensures CheckedQuotient(HALF, 3, 3) == None
  {
    HalfTimesThree();
    assert 3 == Pow2(0) * 3 by {
      assert Pow2(0) == 1;
    }
    PowerOfTwoIff(3, 0, 3);
  }

  lemma HalfTimesThree()
    ensures HALF * 3 >= R && (HALF * 3) / 3 == HALF && HALF < R
  {
    WordSize();
  }

}
