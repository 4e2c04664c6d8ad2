/**
 * How the EVM's modular opcodes act on residues, and the Fermat inverse that the Solidity contracts
 * obtain from the modular-exponentiation precompile.
 */
module FieldArith {
  import opened Words
  import opened Congruence
  import opened NumberTheory

  lemma MulModCong(a: int, a': int, b: int, b': int, p: nat)
    requires p > 0 && Cong(a, a', p) && Cong(b, b', p)
    ensures MulMod(a, b, p) < p && Cong(MulMod(a, b, p), a' * b', p)
  {
    hide Cong;
    CongMod(a * b, p);
    CongMul(a, a', b, b', p);
    CongTrans(MulMod(a, b, p), a * b, a' * b', p);
  }

  lemma AddModCong(a: int, a': int, b: int, b': int, p: nat)
    requires p > 0 && Cong(a, a', p) && Cong(b, b', p)
    ensures AddMod(a, b, p) < p && Cong(AddMod(a, b, p), a' + b', p)
  {
    hide Cong;
    CongMod(a + b, p);
    CongAdd(a, a', b, b', p);
    CongTrans(AddMod(a, b, p), a + b, a' + b', p);
  }

  /** `p - b` stands for the negation of b. */
  lemma NegateCong(b: int, b': int, p: nat)
    requires Cong(b, b', p)
    ensures Cong(p - b, -b', p)
  {
    hide Cong;
    CongMultiple(1, p);
    CongSub(1 * p, 0, b, b', p);
  }

  /** A reduced value is zero exactly when it is congruent to zero. */
  lemma ReducedZero(m: nat, v: int, p: nat)
    requires m < p && Cong(m, v, p)
    ensures m == 0 <==> Cong(v, 0, p)
  {
    hide Cong;
    if m == 0 {
      CongSym(0, v, p);
    }
    if Cong(v, 0, p) {
      CongTrans(m, v, 0, p);
      CongUnique(m, 0, p);
    }
  }

  /** Subtracts modulo the modulus; the intermediate addition may wrap. */
  function SubtractMod(b: nat, c: nat, modulus: nat): (r: nat) {
    WSub(if b < c then WAdd(b, modulus) else b, c)
  }

  lemma SubtractModSpec(b: nat, c: nat, modulus: nat)
    requires b < modulus && c < modulus < R
    ensures SubtractMod(b, c, modulus) == if b < c then b + modulus - c else b - c
    ensures SubtractMod(b, c, modulus) < modulus
    ensures Cong(SubtractMod(b, c, modulus), b - c, modulus)
  {
    hide WAdd, WSub, Cong;
    WAddSpec(b, modulus);
    WSubSpec(b, c);
    WSubSpec(WAdd(b, modulus), c);
    if b < c {
      CongBy(b + modulus - c, b - c, modulus, 1);
    } else {
      CongRefl(b - c, modulus);
    }
  }

  /** Replaces the affine coordinate of a stored one by a congruent value. */
  lemma Rescale(m: int, v: int, v': int, k: int, p: nat)
    requires Cong(m, v * k, p) && Cong(v', v, p)
    ensures Cong(m, v' * k, p)
  {
    hide Cong;
    CongRefl(k, p);
    CongSym(v', v, p);
    CongMul(v, v', k, k, p);
    CongTrans(m, v * k, v' * k, p);
  }

  lemma Rescaled(m: nat, x: nat, k: int, p: nat)
    requires m < p && x < p && Cong(m, x * k, p) && Cong(k, 1, p)
    ensures m == x
  {
    hide Cong;
    CongRefl(x, p);
    CongMul(x, x, k, 1, p);
    CongTrans(m, x * k, x * 1, p);
    CongUnique(m, x, p);
  }

  lemma ReducedSelf(m: nat, p: nat)
    requires m < p
    ensures m == 0 <==> Cong(m, 0, p)
  {
    CongRefl(m, p);
    ReducedZero(m, m, p);
  }

  lemma TimesZero(x: nat, p: nat)
    requires p > 0
    ensures MulMod(x, 0, p) == 0 && MulMod(0, x, p) == 0
  {
  }

  // The polynomial identities behind every coordinate system: a tangent or chord of slope l, with the
  // coordinates of its points scaled by w^2 and w^3.

  lemma TangentIdentityX(l: int, x: int, w: int)
    ensures (l * w) * (l * w) - 2 * (x * (w * w)) == (l * l - x - x) * (w * w)
  {
  }

  lemma NumeratorIdentity(a: int, x: int, z: int)
    ensures 3 * ((x * (z * z)) * (x * (z * z))) + a * ((z * z) * (z * z)) == (3 * x * x + a) * ((z * z) * (z * z))
  {
  }

  lemma ChordIdentityX(l: int, x1: int, x2: int, w: int)
    ensures (l * w) * (l * w) - (x2 - x1) * (w * w) - 2 * (x1 * (w * w)) == (l * l - x1 - x2) * (w * w)
  {
  }

  lemma LineIdentityY(l: int, x: int, x3: int, y: int, w: int)
    ensures (l * w) * (x * (w * w) - x3 * (w * w)) - y * (w * w * w) == (l * (x - x3) - y) * (w * w * w)
  {
  }

  // ---------------------------------------------------------------------------------------------

  /** The modular-exponentiation precompile. */
  function ModExp(base: nat, exponent: nat, modulus: nat): (r: nat) {
    if modulus == 0 then 0 else Pow(base, exponent) % modulus
  }

  function ModInv(u: nat, f: nat, minus2modf: nat): (r: nat) {
    ModExp(u, minus2modf, f)
  }

  /** modInv inverts every unit of an odd prime field, and maps multiples of the prime to zero. */
  lemma ModInvCorrect(u: nat, f: nat)
    requires IsPrime(f) && f > 2
    ensures ModInv(u, f, f - 2) < f
    ensures Cong(u, 0, f) ==> ModInv(u, f, f - 2) == 0
    ensures !Cong(u, 0, f) ==> Cong(u * ModInv(u, f, f - 2), 1, f)
  {
    hide Cong, IsPrime;
    var e := Pow(u, f - 2);
    var r := ModInv(u, f, f - 2);
    CongMod(e, f);
    CongRefl(u, f);
    if Cong(u, 0, f) {
      CongRefl(Pow(u, f - 3), f);
      CongMul(u, 0, Pow(u, f - 3), Pow(u, f - 3), f);
      assert e == u * Pow(u, f - 3);
      ReducedZero(r, e, f);
    } else {
      Fermat(u, f);
      assert Pow(u, f - 1) == u * e;
      CongMul(u, u, r, e, f);
      CongTrans(u * r, u * e, 1, f);
    }
  }

}
