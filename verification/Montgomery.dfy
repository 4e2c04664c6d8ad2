/**
 * Montgomery arithmetic of contracts/enclave-smart-account/P256VERIFY.yul.
 */
module Montgomery {
  import opened Words
  import opened Congruence

  function OverflowingAdd(augend: nat, addend: nat): (r: (nat, bool)) {
    var sum := WAdd(augend, addend);
    (sum, sum < augend)
  }

  /** Montgomery reduction of the double word (tHi, tLo). */
  function Redc(tLo: nat, tHi: nat, n: nat, nPrime: nat): (r: nat) {
    var m := WMul(tLo, nPrime);
    var (tHi1, overflowed1) := OverflowingAdd(tHi, MulHigh(m, n));
    var (aLo, aLoOverflowed) := OverflowingAdd(tLo, WMul(m, n));
    var (tHi2, overflowed2) := if aLoOverflowed then OverflowingAdd(tHi1, 1) else (tHi1, false);
    if overflowed1 || overflowed2 || !(tHi2 < n) then WSub(tHi2, n) else tHi2
  }

  function IntoMontgomery(a: nat, n: nat, nPrime: nat, r2: nat): (r: nat) {
    Redc(WMul(a, r2), MulHigh(a, r2), n, nPrime)
  }

  function OutOfMontgomery(m: nat, n: nat, nPrime: nat): (r: nat) {
    Redc(m, 0, n, nPrime)
  }

  function MontAdd(augend: nat, addend: nat, n: nat): (r: nat) {
    AddMod(augend, addend, n)
  }

  function MontSub(minuend: nat, subtrahend: nat, n: nat): (r: nat) {
    MontAdd(minuend, WSub(n, subtrahend), n)
  }

  function MontMul(a: nat, b: nat, n: nat, nPrime: nat): (r: nat) {
    Redc(WMul(a, b), MulHigh(a, b), n, nPrime)
  }

  // ---------------------------------------------------------------------------------------------
  // Correctness

  /** n is a modulus and nPrime its Montgomery companion: n * nPrime is -1 modulo R. */
  ghost predicate Companion(n: nat, nPrime: nat) {
    1 < n < R && nPrime < R && Cong(n * nPrime, -1, R)
  }

  /** m is the Montgomery form of the residue v modulo n. */
  ghost predicate MForm(m: nat, v: int, n: nat) {
    m < n && Cong(m, v * R, n)
  }

  lemma WMulCong(a: int, b: int)
    ensures WMul(a, b) < R && Cong(WMul(a, b), a * b, R)
  {
    hide Cong;
    WordSize();
    CongMod(a * b, R);
  }

  /** The low words of T and of m * n cancel: their sum is 0 or R. */
  lemma RedcLow(tLo: nat, n: nat, nPrime: nat)
    requires Companion(n, nPrime) && tLo < R
    ensures var l := WMul(WMul(tLo, nPrime), n); tLo + l == 0 || tLo + l == R
  {
    hide Cong, WMul;
    WordSize();
    var m := WMul(tLo, nPrime);
    var l := WMul(m, n);
    WMulCong(tLo, nPrime);
    WMulCong(m, n);
    CongRefl(n, R);
    CongRefl(tLo, R);
    CongMul(m, tLo * nPrime, n, n, R);
    CongTrans(l, m * n, (tLo * nPrime) * n, R);
    CongMul(tLo, tLo, n * nPrime, -1, R);
    Regroup(tLo, nPrime, n);
    assert n * nPrime == nPrime * n;
    CongTrans(l, tLo * (n * nPrime), tLo * -1, R);
    CongAdd(tLo, tLo, l, tLo * -1, R);
    assert tLo + tLo * -1 == 0;
    MultipleBelowTwice(tLo + l, R);
  }

  lemma MultipleBelowTwice(x: nat, m: nat)
    requires m > 0 && x < 2 * m && Cong(x, 0, m)
    ensures x == 0 || x == m
  {
    if x >= m {
      CongRefl(m, m);
      CongMultiple(1, m);
      CongSub(x, 0, 1 * m, 0, m);
      CongUnique(x - m, 0, m);
    } else {
      CongUnique(x, 0, m);
    }
  }

  /** The exact quotient (T + m * n) / R before the final subtraction. */
  lemma RedcQuotient(tLo: nat, tHi: nat, n: nat, nPrime: nat)
    returns (t: nat, m: nat)
    requires Companion(n, nPrime) && tLo < R && tHi * R + tLo < n * R
    ensures t * R == tHi * R + tLo + m * n
    ensures t < 2 * n
    ensures Redc(tLo, tHi, n, nPrime) == if t < n then t else t - n
  {
    hide Cong, WMul, MulHigh, WAdd, WSub;
    m := WMul(tLo, nPrime);
    var h, l := MulHigh(m, n), WMul(m, n);
    WordSize();
    ProductSplit(tLo, nPrime);
    ProductSplit(m, n);
    RedcLow(tLo, n, nPrime);
    var c := if tLo + l == R then 1 else 0;
    assert tLo + l == c * R;
    t := tHi + h + c;
    RedcBounds(tHi, tLo, h, m, n, l);
    assert t * R == tHi * R + h * R + c * R;
    TwiceBound(t, tHi * R + tLo, m, n, R);
    WAddSpec(tLo, l);
    RedcFinish(tHi, h, c, t, n);
  }

  lemma TwiceBound(t: nat, a: nat, m: nat, n: nat, r: nat)
    requires t * r == a + m * n && a < n * r && m < r && n > 0
    ensures t < 2 * n
  {
    assert m * n < r * n;
    assert t * r < (2 * n) * r;
    MulLess(t, 2 * n, r);
  }

  /** The carries of the two high additions are resolved by one subtraction of n. */
  lemma RedcFinish(tHi: nat, h: nat, c: nat, t: nat, n: nat)
    requires c <= 1 && t == tHi + h + c && t < 2 * n && n < R && tHi < R && h < R
    ensures var (t1, o1) := OverflowingAdd(tHi, h);
            var (t2, o2) := if c == 1 then OverflowingAdd(t1, 1) else (t1, false);
            (if o1 || o2 || !(t2 < n) then WSub(t2, n) else t2) == if t < n then t else t - n
  {
    hide WAdd, WSub;
    WordSize();
    WAddSpec(tHi, h);
    WAddSpec(WAdd(tHi, h), 1);
    WSubSpec(WAdd(tHi, h), n);
    WSubSpec(WAdd(WAdd(tHi, h), 1), n);
  }

  lemma RedcBounds(tHi: nat, tLo: nat, h: nat, m: nat, n: nat, l: nat)
    requires m < R && m * n == h * R + l && tHi * R + tLo < n * R && 0 < n < R
    ensures h < n && tHi < n && h < R && tHi < R
  {
    ProductBelow(h, m, n, R, l);
    ProductBelow(tHi, n, R, R, tLo);
  }

  lemma ProductBelow(h: nat, m: nat, n: nat, r: nat, l: nat)
    requires m * n >= h * r + l
    requires m < r && n > 0
    ensures h < n
  {
    assert m * n < r * n;
    MulLess(h, n, r);
  }

  lemma RedcCong(t: int, s: int, m: int, n: nat, r: int)
    requires t * r == s + m * n
    ensures Cong(t * r, s, n) && Cong((t - n) * r, s, n)
  {
    hide Cong;
    CongBy(t * r, s, n, m);
    assert (t - n) * r == t * r - r * n;
    assert (m - r) * n == m * n - r * n;
    CongBy((t - n) * r, s, n, m - r);
  }

  /** Redc divides by R modulo n, for every double word below n * R. */
  lemma RedcCorrect(tLo: nat, tHi: nat, n: nat, nPrime: nat)
    requires Companion(n, nPrime) && tLo < R && tHi * R + tLo < n * R
    ensures Redc(tLo, tHi, n, nPrime) < n
    ensures Cong(Redc(tLo, tHi, n, nPrime) * R, tHi * R + tLo, n)
  {
    hide Cong, Redc;
    var t, m := RedcQuotient(tLo, tHi, n, nPrime);
    RedcCong(t, tHi * R + tLo, m, n, R);
  }

  /** R has an inverse modulo n, so it cancels. */
  lemma CancelR(x: int, y: int, n: nat, nPrime: nat)
    requires Companion(n, nPrime) && Cong(x * R, y * R, n)
    ensures Cong(x, y, n)
  {
    var k :| n * nPrime - (-1) == k * R;
    hide Cong;
    CongBy(R * k, 1, n, nPrime);
    CongRefl(k, n);
    CongMul(x * R, y * R, k, k, n);
    CongRefl(x, n);
    CongRefl(y, n);
    CongMul(x, x, R * k, 1, n);
    CongMul(y, y, R * k, 1, n);
    Regroup(x, R, k);
    Regroup(y, R, k);
    CongSym(x * (R * k), x * 1, n);
    CongTrans(x * 1, x * (R * k), y * (R * k), n);
    CongTrans(x * 1, y * (R * k), y * 1, n);
  }

  /** Reducing a full product: the common core of entering Montgomery form and of multiplying in it. */
  lemma RedcProduct(a: nat, b: nat, n: nat, nPrime: nat)
    requires Companion(n, nPrime) && a < R && b < n
    ensures var s := Redc(WMul(a, b), MulHigh(a, b), n, nPrime); s < n && Cong(s * R, a * b, n)
  {
    hide Cong, Redc, WMul, MulHigh;
    ProductSplit(a, b);
    ProductLess(a, b, R, n);
    RedcCorrect(WMul(a, b), MulHigh(a, b), n, nPrime);
  }

  /** Entering Montgomery form: any word a becomes the form of a modulo n. */
  lemma IntoCorrect(a: nat, n: nat, nPrime: nat, r2: nat)
    requires Companion(n, nPrime) && a < R && r2 < n && Cong(r2, R * R, n)
    ensures MForm(IntoMontgomery(a, n, nPrime, r2), a, n)
  {
    hide Cong, Redc, WMul, MulHigh;
    RedcProduct(a, r2, n, nPrime);
    var s := IntoMontgomery(a, n, nPrime, r2);
    CongRefl(a, n);
    CongMul(a, a, r2, R * R, n);
    Regroup(a, R, R);
    CongTrans(s * R, a * r2, (a * R) * R, n);
    CancelR(s, a * R, n, nPrime);
  }

  /** Leaving Montgomery form recovers the residue. */
  lemma OutCorrect(m: nat, v: int, n: nat, nPrime: nat)
    requires Companion(n, nPrime) && MForm(m, v, n)
    ensures OutOfMontgomery(m, n, nPrime) == v % n
  {
    hide Cong, Redc;
    WordSize();
    assert 0 * R + m == m < n * R;
    RedcCorrect(m, 0, n, nPrime);
    var s := OutOfMontgomery(m, n, nPrime);
    CongTrans(s * R, m, v * R, n);
    CancelR(s, v, n, nPrime);
    CongSym(s, v, n);
    ModUnique(v, s, n);
  }

  /** montgomeryMul is multiplication of residues. */
  lemma MulCorrect(a: nat, u: int, b: nat, v: int, n: nat, nPrime: nat)
    requires Companion(n, nPrime) && MForm(a, u, n) && MForm(b, v, n)
    ensures MForm(MontMul(a, b, n, nPrime), u * v, n)
  {
    hide Cong, Redc, WMul, MulHigh;
    RedcProduct(a, b, n, nPrime);
    var s := MontMul(a, b, n, nPrime);
    CongMul(a, u * R, b, v * R, n);
    MulForms(u, v, R);
    CongTrans(s * R, a * b, ((u * v) * R) * R, n);
    CancelR(s, (u * v) * R, n, nPrime);
  }

  lemma MulForms(u: int, v: int, r: int)
    ensures (u * r) * (v * r) == ((u * v) * r) * r
  {
  }

  /** montgomeryAdd is addition of residues. */
  lemma AddCorrect(a: nat, u: int, b: nat, v: int, n: nat)
    requires MForm(a, u, n) && MForm(b, v, n)
    ensures MForm(MontAdd(a, b, n), u + v, n)
  {
    hide Cong;
    CongMod(a + b, n);
    CongAdd(a, u * R, b, v * R, n);
    assert u * R + v * R == (u + v) * R;
    CongTrans(MontAdd(a, b, n), a + b, (u + v) * R, n);
  }

  /** montgomerySub is subtraction of residues. */
  lemma SubCorrect(a: nat, u: int, b: nat, v: int, n: nat)
    requires n < R && MForm(a, u, n) && MForm(b, v, n)
    ensures MForm(MontSub(a, b, n), u - v, n)
  {
    hide Cong, WSub;
    WSubSpec(n, b);
    CongMod(a + (n - b), n);
    CongSub(a, u * R, b, v * R, n);
    CongMultiple(1, n);
    CongAdd(a - b, u * R - v * R, 1 * n, 0, n);
    assert u * R - v * R == (u - v) * R;
    CongTrans(MontSub(a, b, n), a - b + 1 * n, (u - v) * R, n);
  }

  /** A Montgomery form is zero exactly when its residue is. */
  lemma FormZero(m: nat, v: int, n: nat, nPrime: nat)
    requires Companion(n, nPrime) && MForm(m, v, n)
    ensures m == 0 <==> Cong(v, 0, n)
  {
    hide Cong;
    assert 0 * R == 0;
    if m == 0 {
      CongSym(0, v * R, n);
      CancelR(v, 0, n, nPrime);
    }
    if Cong(v, 0, n) {
      CongRefl(R, n);
      CongMul(v, 0, R, R, n);
      CongTrans(m, v * R, 0, n);
      CongUnique(m, 0, n);
    }
  }

  // ---------------------------------------------------------------------------------------------
  // The laws

  /** Into and out of Montgomery form reduces any word modulo n, hence round-trips below n. */
  lemma RoundTrip(a: nat, n: nat, nPrime: nat, r2: nat)
    requires Companion(n, nPrime) && a < R && r2 < n && Cong(r2, R * R, n)
    ensures OutOfMontgomery(IntoMontgomery(a, n, nPrime, r2), n, nPrime) == a % n
  {
    hide *;
    IntoCorrect(a, n, nPrime, r2);
    OutCorrect(IntoMontgomery(a, n, nPrime, r2), a, n, nPrime);
  }

  /** Multiplying in Montgomery form mirrors multiplication modulo n, for all words. */
  lemma MulMirrors(a: nat, b: nat, n: nat, nPrime: nat, r2: nat)
    requires Companion(n, nPrime) && a < R && b < R && r2 < n && Cong(r2, R * R, n)
    ensures var product := MontMul(IntoMontgomery(a, n, nPrime, r2), IntoMontgomery(b, n, nPrime, r2), n, nPrime);
            OutOfMontgomery(product, n, nPrime) == (a * b) % n
  {
    hide *;
    IntoCorrect(a, n, nPrime, r2);
    IntoCorrect(b, n, nPrime, r2);
    var x, y := IntoMontgomery(a, n, nPrime, r2), IntoMontgomery(b, n, nPrime, r2);
    MulCorrect(x, a, y, b, n, nPrime);
    OutCorrect(MontMul(x, y, n, nPrime), a * b, n, nPrime);
  }

}
