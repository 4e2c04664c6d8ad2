/**
 * The binary extended Euclidean algorithm of contracts/enclave-smart-account/P256VERIFY.yul.
 */
module BinaryEuclid {
  import opened Words
  import opened Congruence
  import opened NumberTheory
  import opened FieldArith
  import opened Montgomery

  /** Halves b modulo an odd modulus; the carry of b + modulus is put back as bit 255. */
  function HalveMod(b: nat, modulus: nat, hasSpareBits: bool): (r: nat) {
    if b % 2 == 0 then b / 2
    else
      var (newB, carry) := OverflowingAdd(b, modulus);
      if !hasSpareBits && carry then BitOr(newB / 2, HALF) else newB / 2
  }

  lemma HalveModSpec(b: nat, modulus: nat, hasSpareBits: bool)
    requires b < modulus < R && modulus % 2 == 1
    requires hasSpareBits <==> BitAnd(modulus, HALF) == 0
    ensures HalveMod(b, modulus, hasSpareBits) == if b % 2 == 0 then b / 2 else (b + modulus) / 2
    ensures HalveMod(b, modulus, hasSpareBits) < modulus
  {
    hide HALF, WAdd;
    WordSize();
    WordWidth();
    WAddSpec(b, modulus);
    AndTopBit(modulus, 255);
    if b % 2 == 1 && b + modulus >= R {
      OrTopBit(WAdd(b, modulus) / 2, 255);
    }
  }

  /** Two cancels modulo an odd number. */
  lemma CancelTwo(x: int, y: int, n: int)
    requires n % 2 == 1 && Cong(2 * x, 2 * y, n)
    ensures Cong(x, y, n)
  {
    var k :| 2 * x - 2 * y == k * n;
    hide Cong;
    var h, m := k / 2, n / 2;
    assert n == 2 * m + 1 && k == 2 * h + k % 2;
    if k % 2 == 1 {
      OddProduct(h, m);
    } else {
      DoubleProduct(h, n);
      CongBy(x, y, n, h);
    }
  }

  lemma OddProduct(h: int, m: int)
    ensures (2 * h + 1) * (2 * m + 1) == 2 * (2 * (h * m) + h + m) + 1
  {
  }

  /** Halving u keeps b * base congruent to u * r2. */
  lemma HalveKeeps(u: nat, b: nat, h: nat, base: int, r2: int, n: nat)
    requires n % 2 == 1 && u % 2 == 0 && Cong(b * base, u * r2, n)
    requires h == if b % 2 == 0 then b / 2 else (b + n) / 2
    ensures Cong(h * base, (u / 2) * r2, n)
  {
    hide Cong;
    if b % 2 == 0 {
      CongRefl(b, n);
    } else {
      CongBy(2 * h, b, n, 1);
    }
    CongRefl(base, n);
    assert 2 * h == b || 2 * h == b + n;
    CongMul(2 * h, b, base, base, n);
    CongTrans((2 * h) * base, b * base, u * r2, n);
    DoubleProduct(h, base);
    DoubleProduct(u / 2, r2);
    CancelTwo(h * base, (u / 2) * r2, n);
  }

  /** Subtracting keeps the congruence. */
  lemma SubtractKeeps(u: nat, v: nat, b: nat, c: nat, d: nat, base: int, r2: int, n: nat)
    requires Cong(b * base, u * r2, n) && Cong(c * base, v * r2, n) && Cong(d, b - c, n)
    ensures Cong(d * base, (u - v) * r2, n)
  {
    hide Cong;
    CongRefl(base, n);
    CongMul(d, b - c, base, base, n);
    CongSub(b * base, u * r2, c * base, v * r2, n);
    assert (b - c) * base == b * base - c * base;
    assert (u - v) * r2 == u * r2 - v * r2;
    CongTrans(d * base, (b - c) * base, (u - v) * r2, n);
  }

  lemma CoprimeHalve(u: nat, v: nat)
    requires Coprime(u, v) && u % 2 == 0
    ensures Coprime(u / 2, v)
  {
    forall d | d > 1 && Divides(d, u / 2)
      ensures !Divides(d, v)
    {
      var k :| u / 2 == k * d;
      assert u == (2 * k) * d;
      assert Divides(d, u);
    }
  }

  lemma DividesSum(d: int, x: int, y: int)
    requires Divides(d, x) && Divides(d, y)
    ensures Divides(d, x + y)
  {
    var k :| x == k * d;
    var l :| y == l * d;
    assert x + y == (k + l) * d;
  }

  lemma CoprimeSubtract(u: nat, v: nat)
    requires Coprime(u, v)
    ensures Coprime(u - v, v)
  {
    forall d | d > 1 && Divides(d, u - v)
      ensures !Divides(d, v)
    {
      if Divides(d, v) {
        DividesSum(d, u - v, v);
      }
    }
  }

  lemma CoprimeSym(u: int, v: int)
    requires Coprime(u, v)
    ensures Coprime(v, u)
  {
  }

  lemma CoprimeEqual(u: nat)
    requires u > 0 && Coprime(u, u)
    ensures u == 1
  {
    assert u == 1 * u;
    assert Divides(u, u);
  }

  /** r2 / base modulo an odd modulus, for every base coprime to it. */
  method BinaryExtendedEuclid(base: nat, modulus: nat, r2: nat) returns (inv: nat)
    requires 1 < modulus < R && modulus % 2 == 1 && r2 < modulus
    requires 0 < base < modulus && Coprime(base, modulus)
    ensures inv < modulus && Cong(inv * base, r2, modulus)
  {
    hide *;
    var modulusHasSpareBits := BitAnd(modulus, HALF) == 0;
    var u: nat, v: nat := base, modulus;
    var b: nat, c: nat := r2, 0;
    assert Cong(b * base, u * r2, modulus) by {
      CongRefl(r2 * base, modulus);
      assert r2 * base == base * r2;
    }
    assert Cong(c * base, v * r2, modulus) by {
      CongMultiple(r2, modulus);
      assert r2 * modulus == modulus * r2 && 0 * base == 0;
      CongSym(r2 * modulus, 0, modulus);
    }
    while u != 1 && v != 1
      invariant b < modulus && c < modulus
      invariant v >= 1 && (u == 0 ==> v == 1)
      invariant Coprime(u, v)
      invariant Cong(b * base, u * r2, modulus) && Cong(c * base, v * r2, modulus)
      decreases u + v
    {
      ghost var u0, v0 := u, v;
      while u % 2 == 0
        invariant 1 <= u <= u0 && b < modulus
        invariant Coprime(u, v)
        invariant Cong(b * base, u * r2, modulus)
        decreases u
      {
        CoprimeHalve(u, v);
        HalveModSpec(b, modulus, modulusHasSpareBits);
        HalveKeeps(u, b, HalveMod(b, modulus, modulusHasSpareBits), base, r2, modulus);
        u := u / 2;
        b := HalveMod(b, modulus, modulusHasSpareBits);
      }
      CoprimeSym(u, v);
      while v % 2 == 0
        invariant 1 <= v <= v0 && c < modulus
        invariant Coprime(v, u)
        invariant Cong(c * base, v * r2, modulus)
        decreases v
      {
        CoprimeHalve(v, u);
        HalveModSpec(c, modulus, modulusHasSpareBits);
        HalveKeeps(v, c, HalveMod(c, modulus, modulusHasSpareBits), base, r2, modulus);
        v := v / 2;
        c := HalveMod(c, modulus, modulusHasSpareBits);
      }
      CoprimeSym(v, u);
      if u == v {
        CoprimeEqual(u);
      }
      if v > u {
        SubtractModSpec(c, b, modulus);
        CoprimeSym(u, v);
        CoprimeSubtract(v, u);
        CoprimeSym(v - u, u);
        SubtractKeeps(v, u, c, b, SubtractMod(c, b, modulus), base, r2, modulus);
        v := v - u;
        c := SubtractMod(c, b, modulus);
      } else {
        SubtractModSpec(b, c, modulus);
        CoprimeSubtract(u, v);
        SubtractKeeps(u, v, b, c, SubtractMod(b, c, modulus), base, r2, modulus);
        u := u - v;
        b := SubtractMod(b, c, modulus);
      }
    }
    assert 1 * r2 == r2;
    if u == 1 {
      inv := b;
    } else {
      inv := c;
    }
  }

}
