/**
 * The top-bit search, the Strauss-Shamir loop and the main body of
 * contracts/enclave-smart-account/P256VERIFY.yul.
 */
module YulVerifier {
  import opened Words
  import opened Congruence
  import opened NumberTheory
  import opened Montgomery
  import opened BinaryEuclid
  import opened Curves
  import opened Ladders
  import opened Ecdsa
  import opened Projective

  /** The constants of the program: field constants, the base point, and the constants of the order. */
  datatype Constants = Constants(f: Field, gx: nat, gy: nat, r2p: nat, nPrime: nat, r2n: nat)

  ghost predicate ValidConstants(k: Constants, d: Domain) {
    && ValidDomain(d) && ValidField(k.f, d.c)
    && MForm(k.gx, d.gx, d.c.p) && MForm(k.gy, d.gy, d.c.p)
    && k.r2p < d.c.p && Cong(k.r2p, R * R, d.c.p)
    && Companion(d.n, k.nPrime) && k.r2n < d.n && Cong(k.r2n, R * R, d.n)
  }

  /** burnGas never returns; the program otherwise returns a word. */
  datatype Outcome = Aborted | Returned(word: nat)

  function CompareBits(index: nat, t0: nat, t1: nat): (r: nat) {
    WAdd(WMul(Shr(index, t0) % 2, 2), Shr(index, t1) % 2)
  }

  lemma CompareBitsSpec(index: nat, t0: nat, t1: nat)
    ensures CompareBits(index, t0, t1) == 2 * (Shr(index, t0) % 2) + Shr(index, t1) % 2
  {
    hide Shr;
    WordSize();
    var b := Shr(index, t0) % 2;
    DivModUnique(b * 2, 0, b * 2, R);
    WAddSpec(b * 2, Shr(index, t1) % 2);
  }

  lemma TopBit(t0: nat, t1: nat, i: nat)
    requires Shr(i + 1, t0) == 0 && Shr(i + 1, t1) == 0
    ensures CompareBits(i, t0, t1) == 0 <==> Shr(i, t0) == 0 && Shr(i, t1) == 0
  {
    hide Shr, CompareBits;
    CompareBitsSpec(i, t0, t1);
    ShrStep(i, t0);
    ShrStep(i, t1);
  }

  /** The position of the highest set bit of either scalar; the index wraps below zero and back when it is bit 0. */
  method FindMostSignificantBitIndex(t0: nat, t1: nat) returns (index: nat, ret: nat)
    requires t0 < R && t1 < R && (t0 != 0 || t1 != 0)
    ensures index <= 255
    ensures ret == CompareBits(index, t0, t1) && ret != 0
    ensures Shr(index + 1, t0) == 0 && Shr(index + 1, t1) == 0
  {
    hide *;
    index := 255;
    ret := 0;
    ShrEnds(t0);
    ShrEnds(t1);
    WordSize();
    ghost var top: nat := 255;
    while ret == 0
      invariant top <= 255
      invariant ret == 0 ==> index == top && Shr(top + 1, t0) == 0 && Shr(top + 1, t1) == 0
      invariant ret != 0 ==> index == WSub(top, 1) && ret == CompareBits(top, t0, t1)
      invariant ret != 0 ==> Shr(top + 1, t0) == 0 && Shr(top + 1, t1) == 0
      decreases if ret == 0 then top + 1 else 0
    {
      TopBit(t0, t1, top);
      ret := CompareBits(index, t0, t1);
      WSubSpec(index, 1);
      index := WSub(index, 1);
      if ret == 0 {
        top := top - 1;
      }
    }
    WrapBack(top);
    index := WAdd(index, 1);
  }

  lemma WrapBack(i: nat)
    requires i < R
    ensures WAdd(WSub(i, 1), 1) == i
  {
    hide WAdd, WSub;
    WordSize();
    WSubSpec(i, 1);
    WAddSpec(WSub(i, 1), 1);
  }

  // ---------------------------------------------------------------------------------------------
  // The ladder

  /** The compared bits select the ladder's table entry. */
  lemma Selects(k: Constants, d: Domain, sq: ProjPoint, sh: ProjPoint, q: Point, t0: nat, t1: nat, i: nat)
    requires ValidConstants(k, d) && OnCurve(d.c, q) && Represents(k.f, sq, q)
    requires Represents(k.f, sh, Add(d.c, d.G(), q))
    ensures var pick := Pick(d.c, d.G(), q, Shr(i, t0) % 2, Shr(i, t1) % 2);
      match CompareBits(i, t0, t1)
      case 0 => pick == Infinity
      case 1 => Represents(k.f, sq, pick)
      case 2 => Represents(k.f, ProjPoint(k.gx, k.gy, k.f.one), pick)
      case _ => Represents(k.f, sh, pick)
  {
    hide Add, OnCurve, ValidCurve, Shr, Represents, CompareBits, MForm, Cong, IsPrime, Companion;
    CompareBitsSpec(i, t0, t1);
    FromAffineRepresents(k.f, d.c, k.gx, k.gy, d.G());
  }

  /** One round of the loop. */
  lemma Round(f: Field, c: Curve, g: Point, q: Point, u: nat, v: nat, i: nat, s: ProjPoint)
    requires ValidField(f, c) && OnCurve(c, g) && OnCurve(c, q)
    requires Represents(f, s, Ladder(c, g, q, Shr(i + 1, u), Shr(i + 1, v)))
    ensures var pick := Pick(c, g, q, Shr(i, u) % 2, Shr(i, v) % 2);
      var next := Ladder(c, g, q, Shr(i, u), Shr(i, v));
      && (pick.Infinity? ==> Represents(f, ProjectiveDouble(f, s), next))
      && (forall t :: Represents(f, t, pick) ==> Represents(f, ProjectiveAdd(f, ProjectiveDouble(f, s), t), next))
  {
    ValidFieldCurve(f, c);
    hide *;
    var acc := Ladder(c, g, q, Shr(i + 1, u), Shr(i + 1, v));
    var pick := Pick(c, g, q, Shr(i, u) % 2, Shr(i, v) % 2);
    DoubleRefines(f, c, s, acc);
    LadderStep(c, g, q, u, v, i);
    AddInfinity(c, Double(c, acc));
    forall t | Represents(f, t, pick)
      ensures Represents(f, ProjectiveAdd(f, ProjectiveDouble(f, s), t), Add(c, Double(c, acc), pick))
    {
      AddRefines(f, c, ProjectiveDouble(f, s), Double(c, acc), t, pick);
    }
  }

  lemma ValidFieldCurve(f: Field, c: Curve)
    requires ValidField(f, c)
    ensures ValidCurve(c)
  {
  }

  lemma ConstantParts(k: Constants, d: Domain)
    requires ValidConstants(k, d)
    ensures ValidDomain(d) && ValidCurve(d.c) && OnCurve(d.c, d.G()) && ValidField(k.f, d.c)
    ensures Represents(k.f, ProjPoint(k.gx, k.gy, k.f.one), d.G())
  {
    FromAffineRepresents(k.f, d.c, k.gx, k.gy, d.G());
  }

  /** shamirLinearCombination represents the ladder over t0 and t1. */
  method ShamirLinearCombination(k: Constants, ghost d: Domain, sq: ProjPoint, ghost q: Point, t0: nat, t1: nat)
    returns (s: ProjPoint)
    requires ValidConstants(k, d) && OnCurve(d.c, q) && Represents(k.f, sq, q)
    requires t0 < R && t1 < R && (t0 != 0 || t1 != 0)
    ensures Represents(k.f, s, Ladder(d.c, d.G(), q, t0, t1))
    ensures Associative(d.c) ==>
              Represents(k.f, s, Add(d.c, Multiple(d.c, t0, d.G()), Multiple(d.c, t1, q)))
  {
    hide *;
    ConstantParts(k, d);
    if Associative(d.c) {
      LadderIsLinear(d.c, d.G(), q, t0, t1);
    }
    ghost var c, g := d.c, d.G();
    var f := k.f;
    var sg := ProjPoint(k.gx, k.gy, f.one);
    var sh := ProjectiveAdd(f, sg, sq);
    AddRefines(f, c, sg, g, sq, q);
    var index, ret := FindMostSignificantBitIndex(t0, t1);
    s := ProjPoint(0, 0, 0);
    if ret == 1 {
      s := sq;
    } else if ret == 2 {
      s := sg;
    } else if ret == 3 {
      s := sh;
    }
    CompareBitsSpec(index, t0, t1);
    Selects(k, d, sq, sh, q, t0, t1, index);
    FirstPoint(c, g, q, t0, t1, index);
    while index > 0
      invariant index <= 255
      invariant Represents(f, s, Ladder(c, g, q, Shr(index, t0), Shr(index, t1)))
    {
      index := index - 1;
      Round(f, c, g, q, t0, t1, index, s);
      Selects(k, d, sq, sh, q, t0, t1, index);
      CompareBitsSpec(index, t0, t1);
      s := ProjectiveDouble(f, s);
      ret := CompareBits(index, t0, t1);
      if ret == 1 {
        s := ProjectiveAdd(f, s, sq);
      } else if ret == 2 {
        s := ProjectiveAdd(f, s, sg);
      } else if ret == 3 {
        s := ProjectiveAdd(f, s, sh);
      }
    }
    ShrWhole(t0);
    ShrWhole(t1);
  }

  // ---------------------------------------------------------------------------------------------
  // Inverses in Montgomery form

  lemma PrimeCoprime(a: nat, p: nat)
    requires IsPrime(p) && 0 < a < p
    ensures Coprime(a, p)
  {
    forall d | d > 1 && Divides(d, a)
      ensures !Divides(d, p)
    {
      var k :| a == k * d;
      assert k >= 1;
      assert d <= a;
    }
  }

  /** What the binary Euclid returns on a Montgomery form is the Montgomery form of the inverse. */
  lemma InverseForm(m: nat, v: int, w: int, inv: nat, n: nat, nPrime: nat, r2: nat)
    requires Companion(n, nPrime) && MForm(m, v, n) && Cong(r2, R * R, n)
    requires inv < n && Cong(inv * m, r2, n) && Cong(v * w, 1, n)
    ensures MForm(inv, w, n)
  {
    hide Cong, Companion;
    CongRefl(inv, n);
    CongMul(inv, inv, m, v * R, n);
    CongSym(inv * m, inv * (v * R), n);
    CongTrans(inv * (v * R), inv * m, r2, n);
    CongTrans(inv * (v * R), r2, R * R, n);
    Regroup(inv, v, R);
    CancelR(inv * v, R, n, nPrime);
    CongRefl(w, n);
    CongMul(inv * v, R, w, w, n);
    CongMul(inv, inv, v * w, 1, n);
    Regroup(inv, v, w);
    CongSym(inv * (v * w), inv * 1, n);
    CongTrans(inv * 1, inv * (v * w), R * w, n);
    assert R * w == w * R;
  }

  /** montgomeryModularInverse. */
  method MontgomeryModularInverse(m: nat, n: nat, nPrime: nat, r2: nat, ghost v: int, ghost w: int)
    returns (inv: nat)
    requires IsPrime(n) && n % 2 == 1 && Companion(n, nPrime) && r2 < n && Cong(r2, R * R, n)
    requires MForm(m, v, n) && Cong(v * w, 1, n) && m != 0
    ensures MForm(inv, w, n)
  {
    FormRange(m, v, n, nPrime);
    hide *;
    PrimeCoprime(m, n);
    inv := BinaryExtendedEuclid(m, n, r2);
    InverseForm(m, v, w, inv, n, nPrime, r2);
  }

  lemma FormRange(m: nat, v: int, n: nat, nPrime: nat)
    requires Companion(n, nPrime) && MForm(m, v, n)
    ensures m < n && 1 < n < R
  {
  }

  // ---------------------------------------------------------------------------------------------
  // The main body

  /** The scalars of the Yul program are those of the reference. */
  lemma ScalarForm(d: Domain, value: nat, s: nat, mv: nat, ms1: nat, w: int, nPrime: nat)
    requires IsPrime(d.n) && 0 < s < d.n && Companion(d.n, nPrime)
    requires MForm(mv, value, d.n) && MForm(ms1, w, d.n) && 0 <= w < d.n && Cong(s * w, 1, d.n)
    ensures OutOfMontgomery(MontMul(mv, ms1, d.n, nPrime), d.n, nPrime) == Scalar(d, value, s)
  {
    hide *;
    MulCorrect(mv, value, ms1, w, d.n, nPrime);
    OutCorrect(MontMul(mv, ms1, d.n, nPrime), value * w, d.n, nPrime);
    ScalarBy(d, value, s, w);
  }

  /** The final division by z recovers the affine x. */
  lemma FinalX(f: Field, c: Curve, s: ProjPoint, x: nat, y: nat, z: int, i: int, zInv: nat)
    requires ValidField(f, c) && x < c.p && StoredAt(f, s, x, y, z) && MForm(zInv, i, f.p) && Cong(z * i, 1, f.p)
    ensures OutOfMontgomery(MontMul(s.x, zInv, f.p, f.pPrime), f.p, f.pPrime) == x
  {
    hide Cong, Companion, MForm, IsPrime;
    var p := f.p;
    MulCorrect(s.x, x * z, zInv, i, p, f.pPrime);
    Regroup(x, z, i);
    CongRefl(x, p);
    CongMul(x, x, z * i, 1, p);
    FormCong(MontMul(s.x, zInv, p, f.pPrime), x * (z * i), x * 1, p);
    OutCorrect(MontMul(s.x, zInv, p, f.pPrime), x, p, f.pPrime);
    DivModUnique(x, 0, x, p);
  }

  /** The parts of the constants that the two moduli need. */
  lemma ModulusParts(k: Constants, d: Domain)
    requires ValidConstants(k, d)
    ensures ValidDomain(d) && ValidField(k.f, d.c) && k.f.p == d.c.p
    ensures IsPrime(d.n) && d.n % 2 == 1 && Companion(d.n, k.nPrime) && k.r2n < d.n && Cong(k.r2n, R * R, d.n)
    ensures IsPrime(d.c.p) && d.c.p % 2 == 1 && Companion(d.c.p, k.f.pPrime)
    ensures k.r2p < d.c.p && Cong(k.r2p, R * R, d.c.p)
    ensures 1 < d.n < R && 1 < d.c.p < R
  {
  }

  lemma KeyOnCurve(k: Constants, d: Domain, mx: nat, my: nat, x: nat, y: nat)
    requires ValidConstants(k, d) && x < d.c.p && y < d.c.p && MForm(mx, x, d.c.p) && MForm(my, y, d.c.p)
    ensures AffineIsOnCurve(k.f, mx, my) <==> OnCurve(d.c, Affine(x, y))
    ensures Represents(k.f, ProjectiveFromAffine(k.f, mx, my), Affine(x, y))
  {
    hide OnCurve, ValidCurve, Cong, MForm, IsPrime, Companion, AffineIsOnCurve;
    OnCurveIff(k.f, d.c, mx, my, x, y);
    FromAffineRepresents(k.f, d.c, mx, my, Affine(x, y));
  }

  lemma InverseIn(v: int, p: nat) returns (w: int)
    requires IsPrime(p) && !Cong(v, 0, p)
    ensures 0 <= w < p && Cong(v * w, 1, p)
  {
    w := Inverse(v, p);
  }

  /** The scalars of a well-formed signature: t0 and t1 of the program. */
  method ComputeScalars(k: Constants, ghost d: Domain, n: nat, hash: nat, r: nat, s: nat) returns (t0: nat, t1: nat)
    requires ValidConstants(k, d) && n == d.n && hash < R && 0 < r < n && 0 < s < n
    ensures t0 == Scalar(d, hash, s) && t1 == Scalar(d, r, s)
  {
    ModulusParts(k, d);
    hide *;
    NotMultiple(s, n);
    ghost var w := InverseIn(s, n);
    IntoCorrect(hash, n, k.nPrime, k.r2n);
    IntoCorrect(r, n, k.nPrime, k.r2n);
    IntoCorrect(s, n, k.nPrime, k.r2n);
    var mh := IntoMontgomery(hash, n, k.nPrime, k.r2n);
    var mr := IntoMontgomery(r, n, k.nPrime, k.r2n);
    var ms := IntoMontgomery(s, n, k.nPrime, k.r2n);
    FormZero(ms, s, n, k.nPrime);
    var s1 := MontgomeryModularInverse(ms, n, k.nPrime, k.r2n, s, w);
    ScalarForm(d, hash, s, mh, s1, w, k.nPrime);
    ScalarForm(d, r, s, mr, s1, w, k.nPrime);
    t0 := OutOfMontgomery(MontMul(mh, s1, n, k.nPrime), n, k.nPrime);
    t1 := OutOfMontgomery(MontMul(mr, s1, n, k.nPrime), n, k.nPrime);
  }

  /** The affine x of a finite accumulator, out of Montgomery form. */
  method AffineX(k: Constants, ghost d: Domain, sr: ProjPoint, ghost q: Point) returns (x: nat)
    requires ValidConstants(k, d) && OnCurve(d.c, q) && Represents(k.f, sr, q) && sr.z != 0
    ensures q.Affine? && x == q.x
  {
    ModulusParts(k, d);
    var f := k.f;
    assert q.Affine?;
    ghost var z :| StoredAt(f, sr, q.x, q.y, z);
    assert q.x < d.c.p && MForm(sr.z, z, f.p) && !Cong(z, 0, f.p);
    hide *;
    ghost var i := InverseIn(z, f.p);
    var zInv := MontgomeryModularInverse(sr.z, f.p, f.pPrime, k.r2p, z, i);
    FinalX(f, d.c, sr, q.x, q.y, z, i, zInv);
    x := OutOfMontgomery(MontMul(sr.x, zInv, f.p, f.pPrime), f.p, f.pPrime);
  }

  lemma NotWellFormed(d: Domain, r: nat, s: nat, x: nat, y: nat)
    requires ValidDomain(d)
    requires r == 0 || r >= d.n || s == 0 || s >= d.n || !OnCurve(d.c, Affine(x, y))
    ensures !WellFormed(d, r, s, x, y)
  {
  }

  lemma IsWellFormed(d: Domain, r: nat, s: nat, x: nat, y: nat)
    requires ValidDomain(d) && 0 < r < d.n && 0 < s < d.n && OnCurve(d.c, Affine(x, y))
    ensures WellFormed(d, r, s, x, y)
  {
  }

  lemma Verdict(d: Domain, hash: nat, r: nat, s: nat, x: nat, y: nat)
    requires ValidDomain(d) && WellFormed(d, r, s, x, y)
    ensures var sum := Ladder(d.c, d.G(), Affine(x, y), Scalar(d, hash, s), Scalar(d, r, s));
      LadderAccepts(d, hash, r, s, x, y) <==> sum.Affine? && sum.x % d.n == r
  {
  }

  /** A point whose representative has z = 0 is infinity. */
  lemma ZeroScale(k: Constants, d: Domain, s: ProjPoint, q: Point)
    requires ValidConstants(k, d) && Represents(k.f, s, q) && s.z == 0
    ensures q.Infinity?
  {
    if q.Affine? {
      var z :| StoredAt(k.f, s, q.x, q.y, z);
      StoredIsFinite(k.f, s, q.x, q.y, z);
    }
  }

  /** The program aborts exactly on malformed input, and otherwise returns the acceptance bit. */
  method Verify(k: Constants, d: Domain, hash: nat, r: nat, s: nat, x: nat, y: nat) returns (res: Outcome)
    requires ValidConstants(k, d) && hash < R && r < R && s < R && x < R && y < R
    ensures res.Aborted? <==> !WellFormed(d, r, s, x, y)
    ensures res.Returned? ==> res.word == if LadderAccepts(d, hash, r, s, x, y) then 1 else 0
    ensures res.Returned? && Associative(d.c) ==> res.word == if Accepts(d, hash, r, s, x, y) then 1 else 0
  {
    ModulusParts(k, d);
    ConstantParts(k, d);
    if Associative(d.c) {
      LadderAcceptsIff(d, hash, r, s, x, y);
    }
    hide *;
    var p, n, f := d.c.p, d.n, k.f;
    if r == 0 || r >= n || s == 0 || s >= n {
      NotWellFormed(d, r, s, x, y);
      return Aborted;
    }
    if (x == 0 && y == 0) || x >= p || y >= p {
      OffCurve(d.c, x, y);
      NotWellFormed(d, r, s, x, y);
      return Aborted;
    }
    IntoCorrect(x, p, f.pPrime, k.r2p);
    IntoCorrect(y, p, f.pPrime, k.r2p);
    var mx := IntoMontgomery(x, p, f.pPrime, k.r2p);
    var my := IntoMontgomery(y, p, f.pPrime, k.r2p);
    KeyOnCurve(k, d, mx, my, x, y);
    if !AffineIsOnCurve(f, mx, my) {
      NotWellFormed(d, r, s, x, y);
      return Aborted;
    }
    IsWellFormed(d, r, s, x, y);
    Verdict(d, hash, r, s, x, y);
    var sq := ProjectiveFromAffine(f, mx, my);
    var t0, t1 := ComputeScalars(k, d, n, hash, r, s);
    SecondScalarNonZero(d, r, s);
    var sr := ShamirLinearCombination(k, d, sq, Affine(x, y), t0, t1);
    ghost var sum := Ladder(d.c, d.G(), Affine(x, y), t0, t1);
    if sr.z == 0 {
      ZeroScale(k, d, sr, sum);
      return Returned(0);
    }
    var xr := AffineX(k, d, sr, sum);
    return Returned(if xr % n == r then 1 else 0);
  }

}
