/**
 * Point arithmetic of contracts/enclave-smart-account/P256Verifier.sol: XYZZ coordinates, where the
 * affine point (x, y) is stored as (x * z^2, y * z^3, z^2, z^3), and (0, 0) is affine infinity.
 */
module XYZZ {
  import opened Words
  import opened Congruence
  import opened NumberTheory
  import opened FieldArith
  import opened Curves

  datatype ZZPoint = ZZPoint(x: nat, y: nat, zz: nat, zzz: nat)

  const AT_INFINITY := ZZPoint(0, 0, 0, 0)

  predicate AffIsInf(x: nat, y: nat) { x == 0 && y == 0 }

  predicate ZZIsInf(s: ZZPoint) { s.zz == 0 && s.zzz == 0 }

  function PModInv(c: Curve, u: nat): (r: nat)
    requires c.p >= 2
  {
    ModInv(u, c.p, c.p - 2)
  }

  function DoubleZZ(c: Curve, s: ZZPoint): (r: ZZPoint)
    requires c.p >= 2
  {
    if ZZIsInf(s) then AT_INFINITY else
    var p := c.p;
    var u := MulMod(2, s.y, p);
    var v := MulMod(u, u, p);
    var w := MulMod(u, v, p);
    var t := MulMod(s.x, v, p);
    var m := AddMod(MulMod(3, MulMod(s.x, s.x, p), p), MulMod(c.a, MulMod(s.zz, s.zz, p), p), p);
    var x3 := AddMod(MulMod(m, m, p), MulMod(p - 2, t, p), p);
    var y3 := AddMod(MulMod(m, AddMod(t, p - x3, p), p), MulMod(p - w, s.y, p), p);
    ZZPoint(x3, y3, MulMod(v, s.zz, p), MulMod(w, s.zzz, p))
  }

  function DoubleAffine(c: Curve, x1: nat, y1: nat): (r: ZZPoint)
    requires c.p >= 2
  {
    if AffIsInf(x1, y1) then AT_INFINITY else
    var p := c.p;
    var u := MulMod(2, y1, p);
    var zz3 := MulMod(u, u, p);
    var zzz3 := MulMod(u, zz3, p);
    var t := MulMod(x1, zz3, p);
    var m := AddMod(MulMod(3, MulMod(x1, x1, p), p), c.a, p);
    var x3 := AddMod(MulMod(m, m, p), MulMod(p - 2, t, p), p);
    var y3 := AddMod(MulMod(m, AddMod(t, p - x3, p), p), MulMod(p - zzz3, y1, p), p);
    ZZPoint(x3, y3, zz3, zzz3)
  }

  function DaddAffine(c: Curve, s: ZZPoint, x2: nat, y2: nat): (r: ZZPoint)
    requires c.p >= 2
  {
    if AffIsInf(x2, y2) then (if ZZIsInf(s) then AT_INFINITY else s)
    else if ZZIsInf(s) then ZZPoint(x2, y2, 1, 1)
    else
      var p := c.p;
      var r := AddMod(MulMod(y2, s.zzz, p), p - s.y, p);
      var d := AddMod(MulMod(x2, s.zz, p), p - s.x, p);
      if d != 0 then
        var dd := MulMod(d, d, p);
        var ddd := MulMod(dd, d, p);
        var q := MulMod(s.x, dd, p);
        var x3 := AddMod(AddMod(MulMod(r, r, p), p - ddd, p), MulMod(p - 2, q, p), p);
        var y3 := AddMod(MulMod(AddMod(q, p - x3, p), r, p), MulMod(p - s.y, ddd, p), p);
        ZZPoint(x3, y3, MulMod(s.zz, dd, p), MulMod(s.zzz, ddd, p))
      else if r == 0 then DoubleAffine(c, x2, y2)
      else AT_INFINITY
  }

  function SetAff(c: Curve, s: ZZPoint): (r: (nat, nat))
    requires c.p >= 2
  {
    if ZZIsInf(s) then (0, 0) else
    var p := c.p;
    var zzzInv := PModInv(c, s.zzz);
    var zInv := MulMod(s.zz, zzzInv, p);
    var zzInv := MulMod(zInv, zInv, p);
    (MulMod(s.x, zzInv, p), MulMod(s.y, zzzInv, p))
  }

  function AffAdd(c: Curve, x1: nat, y1: nat, x2: nat, y2: nat): (r: (nat, nat))
    requires c.p >= 2
  {
    if AffIsInf(x1, y1) then (x2, y2)
    else if AffIsInf(x2, y2) then (x1, y1)
    else SetAff(c, DaddAffine(c, ZZPoint(x1, y1, 1, 1), x2, y2))
  }

  // ---------------------------------------------------------------------------------------------
  // Which point a tuple stands for

  /** s stores the affine point (x, y) with scale z. */
  ghost predicate StoredAt(p: nat, s: ZZPoint, x: int, y: int, z: int) {
    && !Cong(z, 0, p)
    && Cong(s.x, x * (z * z), p) && Cong(s.y, y * (z * z * z), p)
    && Cong(s.zz, z * z, p) && Cong(s.zzz, z * z * z, p)
  }

  ghost predicate Reduced(p: nat, s: ZZPoint) {
    s.x < p && s.y < p && s.zz < p && s.zzz < p
  }

  ghost predicate Represents(c: Curve, s: ZZPoint, q: Point) {
    && Reduced(c.p, s)
    && (q.Infinity? ==> ZZIsInf(s))
    && (q.Affine? ==> exists z :: StoredAt(c.p, s, q.x, q.y, z))
  }

  /** An affine pair stands for a point; (0, 0) is infinity. */
  ghost predicate AffRepresents(x: nat, y: nat, q: Point) {
    if q.Infinity? then x == 0 && y == 0 else x == q.x && y == q.y
  }

  lemma ScaleNonZero(p: nat, z: int)
    requires IsPrime(p) && !Cong(z, 0, p)
    ensures !Cong(z * z, 0, p) && !Cong(z * z * z, 0, p)
  {
    hide Cong, IsPrime;
    EuclidLemma(z, z, p);
    EuclidLemma(z * z, z, p);
  }

  /** A tuple that stores a finite point is not taken for infinity. */
  lemma StoredIsFinite(p: nat, s: ZZPoint, x: int, y: int, z: int)
    requires IsPrime(p) && Reduced(p, s) && StoredAt(p, s, x, y, z)
    ensures s.zz != 0 && s.zzz != 0
  {
    hide Cong, IsPrime;
    ScaleNonZero(p, z);
    ReducedZero(s.zz, z * z, p);
    ReducedZero(s.zzz, z * z * z, p);
  }

  // ---------------------------------------------------------------------------------------------
  // Doubling

  lemma TangentNumerator(p: nat, a: int, x: int, y: int, z: int, l: int, m: int)
    requires Cong(l * (2 * y), 3 * x * x + a, p)
    requires Cong(m, 3 * ((x * (z * z)) * (x * (z * z))) + a * ((z * z) * (z * z)), p)
    ensures Cong(m, l * (2 * y * (z * z * z) * z), p)
  {
    hide Cong;
    var k := (z * z) * (z * z);
    NumeratorIdentity(a, x, z);
    DenominatorScale(y, z, l);
    CongRefl(k, p);
    CongSym(l * (2 * y), 3 * x * x + a, p);
    CongMul(3 * x * x + a, l * (2 * y), k, k, p);
    CongTrans(m, (3 * x * x + a) * k, (l * (2 * y)) * k, p);
  }

  lemma DenominatorScale(y: int, z: int, l: int)
    ensures (l * (2 * y)) * ((z * z) * (z * z)) == l * (2 * y * (z * z * z) * z)
  {
  }

  /** x3 = m^2 - 2s, with m = l w and s = x w^2. */
  lemma FinishX(p: nat, m: nat, s: nat, l: int, x: int, w: int, x3: int)
    requires p > 0 && Cong(m, l * w, p) && Cong(s, x * (w * w), p) && Cong(x3, l * l - x - x, p)
    ensures Cong(AddMod(MulMod(m, m, p), MulMod(p - 2, s, p), p), x3 * (w * w), p)
    ensures AddMod(MulMod(m, m, p), MulMod(p - 2, s, p), p) < p
  {
    hide Cong, MulMod, AddMod;
    CongRefl(2, p);
    NegateCong(2, 2, p);
    MulModCong(m, l * w, m, l * w, p);
    MulModCong(p - 2, -2, s, x * (w * w), p);
    AddModCong(MulMod(m, m, p), (l * w) * (l * w), MulMod(p - 2, s, p), -2 * (x * (w * w)), p);
    TangentIdentityX(l, x, w);
    Rescale(AddMod(MulMod(m, m, p), MulMod(p - 2, s, p), p), l * l - x - x, x3, w * w, p);
  }

  /** y3 = m (s - x3) - f g, with f g = y w^3. */
  lemma FinishY(p: nat, m: nat, s: nat, x3': nat, f: nat, g: nat,
                l: int, x: int, w: int, x3: int, f': int, g': int, y: int, y3: int)
    requires p > 0 && Cong(m, l * w, p) && Cong(s, x * (w * w), p) && Cong(x3', x3 * (w * w), p)
    requires Cong(f, f', p) && Cong(g, g', p) && f' * g' == y * (w * w * w)
    requires Cong(y3, l * (x - x3) - y, p)
    ensures Cong(AddMod(MulMod(m, AddMod(s, p - x3', p), p), MulMod(p - f, g, p), p), y3 * (w * w * w), p)
    ensures AddMod(MulMod(m, AddMod(s, p - x3', p), p), MulMod(p - f, g, p), p) < p
  {
    hide Cong, MulMod, AddMod;
    NegateCong(x3', x3 * (w * w), p);
    AddModCong(s, x * (w * w), p - x3', -(x3 * (w * w)), p);
    var k := AddMod(s, p - x3', p);
    MulModCong(m, l * w, k, x * (w * w) + -(x3 * (w * w)), p);
    NegateCong(f, f', p);
    MulModCong(p - f, -f', g, g', p);
    assert (-f') * g' == -(f' * g');
    AddModCong(MulMod(m, k, p), (l * w) * (x * (w * w) + -(x3 * (w * w))),
               MulMod(p - f, g, p), -(y * (w * w * w)), p);
    LineIdentityY(l, x, x3, y, w);
    Rescale(AddMod(MulMod(m, k, p), MulMod(p - f, g, p), p), l * (x - x3) - y, y3, w * w * w, p);
  }

  lemma NewScale(p: nat, y: int, z: int)
    requires IsPrime(p) && !Cong(z, 0, p) && !Cong(2 * y, 0, p)
    ensures !Cong(2 * y * (z * z * z) * z, 0, p)
  {
    hide Cong, IsPrime;
    ScaleNonZero(p, z);
    EuclidLemma(2 * y, z * z * z, p);
    EuclidLemma(2 * y * (z * z * z), z, p);
  }

  lemma TangentScales(x: int, y: int, z: int, t: int, w: int)
    requires t == 2 * y * (z * z * z) && w == t * z
    ensures 2 * (y * (z * z * z)) == t
    ensures (x * (z * z)) * (t * t) == x * (w * w)
    ensures (t * (t * t)) * (y * (z * z * z)) == y * (w * w * w)
    ensures (t * t) * (z * z) == w * w
    ensures (t * (t * t)) * (z * z * z) == w * w * w
  {
    assert (x * (z * z)) * (t * t) == x * ((t * z) * (t * z));
    assert (t * (t * t)) * (z * z * z) == (t * z) * (t * z) * (t * z);
    assert (t * (t * t)) * (y * (z * z * z)) == y * ((t * (t * t)) * (z * z * z));
  }

  /** The line-by-line congruences of the tangent case; the new scale is w = 2 y z^4. */
  lemma DoubleWalk(c: Curve, s: ZZPoint, x: int, y: int, z: int, l: int, x3: int, y3: int)
    requires IsPrime(c.p) && Reduced(c.p, s) && StoredAt(c.p, s, x, y, z) && !Cong(2 * y, 0, c.p)
    requires Cong(l * (2 * y), 3 * x * x + c.a, c.p)
    requires Cong(x3, l * l - x - x, c.p) && Cong(y3, l * (x - x3) - y, c.p)
    ensures Reduced(c.p, DoubleZZ(c, s))
    ensures StoredAt(c.p, DoubleZZ(c, s), x3, y3, 2 * y * (z * z * z) * z)
  {
    hide Cong, IsPrime, MulMod, AddMod;
    var p := c.p;
    StoredIsFinite(p, s, x, y, z);
    var z2, z3 := z * z, z * z * z;
    var t := 2 * y * z3;
    var w := t * z;
    TangentScales(x, y, z, t, w);
    CongRefl(2, p);
    CongRefl(3, p);
    CongRefl(c.a, p);

    var u := MulMod(2, s.y, p);
    MulModCong(2, 2, s.y, y * z3, p);
    var v := MulMod(u, u, p);
    MulModCong(u, t, u, t, p);
    var ww := MulMod(u, v, p);
    MulModCong(u, t, v, t * t, p);
    var ss := MulMod(s.x, v, p);
    MulModCong(s.x, x * z2, v, t * t, p);
    var xx := MulMod(s.x, s.x, p);
    MulModCong(s.x, x * z2, s.x, x * z2, p);
    MulModCong(3, 3, xx, (x * z2) * (x * z2), p);
    var zz := MulMod(s.zz, s.zz, p);
    MulModCong(s.zz, z2, s.zz, z2, p);
    MulModCong(c.a, c.a, zz, z2 * z2, p);
    var m := AddMod(MulMod(3, xx, p), MulMod(c.a, zz, p), p);
    AddModCong(MulMod(3, xx, p), 3 * ((x * z2) * (x * z2)), MulMod(c.a, zz, p), c.a * (z2 * z2), p);
    TangentNumerator(p, c.a, x, y, z, l, m);

    FinishX(p, m, ss, l, x, w, x3);
    var x3' := AddMod(MulMod(m, m, p), MulMod(p - 2, ss, p), p);
    FinishY(p, m, ss, x3', ww, s.y, l, x, w, x3, t * (t * t), y * z3, y, y3);
    MulModCong(v, t * t, s.zz, z2, p);
    MulModCong(ww, t * (t * t), s.zzz, z3, p);
    NewScale(p, y, z);
  }

  /** Doubling a point of order two: everything that carries the scale is zero. */
  lemma DoubleVanishes(c: Curve, s: ZZPoint, y: int, z: int)
    requires c.p >= 2 && Reduced(c.p, s) && s.zz != 0
    requires Cong(s.y, y * (z * z * z), c.p) && Cong(2 * y, 0, c.p)
    ensures Reduced(c.p, DoubleZZ(c, s)) && ZZIsInf(DoubleZZ(c, s))
  {
    hide Cong, IsPrime, MulMod, AddMod;
    var p := c.p;
    var z3 := z * z * z;
    CongRefl(2, p);
    MulModCong(2, 2, s.y, y * z3, p);
    var u := MulMod(2, s.y, p);
    CongRefl(z3, p);
    CongMul(2 * y, 0, z3, z3, p);
    assert 2 * (y * z3) == (2 * y) * z3;
    ReducedZero(u, 2 * (y * z3), p);
    TimesZero(u, p);
    TimesZero(s.zz, p);
    TimesZero(s.zzz, p);
    DoubleReduced(c, s);
  }

  lemma DoubleReduced(c: Curve, s: ZZPoint)
    requires c.p >= 2
    ensures Reduced(c.p, DoubleZZ(c, s))
  {
  }

  /** ecZZ_double_zz is the doubling of the group, for every choice of scale. */
  lemma DoubleRefines(c: Curve, s: ZZPoint, q: Point)
    requires ValidCurve(c) && OnCurve(c, q) && Represents(c, s, q)
    ensures Represents(c, DoubleZZ(c, s), Double(c, q))
  {
    hide Cong, IsPrime, Double, Add, Cubic, MulMod, AddMod;
    if q.Infinity? {
      AddInfinity(c, q);
    } else {
      var z :| StoredAt(c.p, s, q.x, q.y, z);
      StoredIsFinite(c.p, s, q.x, q.y, z);
      if Cong(2 * q.y, 0, c.p) {
        DoubleVertical(c, q);
        hide DoubleZZ;
        DoubleVanishes(c, s, q.y, z);
      } else {
        var l := AddTangent(c, q);
        hide DoubleZZ;
        DoubleWalk(c, s, q.x, q.y, z, l, Double(c, q).x, Double(c, q).y);
      }
    }
  }

  lemma UnitProducts(x: nat, p: nat)
    requires p >= 2 && x < p
    ensures MulMod(x, 1, p) == x && MulMod(1, 1, p) == 1
  {
    DivModUnique(x, 0, x, p);
    DivModUnique(1, 0, 1, p);
  }

  /** ecZZ_double_affine is ecZZ_double_zz at scale one. */
  lemma DoubleAffineIsDouble(c: Curve, x: nat, y: nat)
    requires c.p >= 2 && c.a < c.p && !AffIsInf(x, y)
    ensures DoubleAffine(c, x, y) == DoubleZZ(c, ZZPoint(x, y, 1, 1))
  {
    hide AddMod;
    var u := MulMod(2, y, c.p);
    var v := MulMod(u, u, c.p);
    var w := MulMod(u, v, c.p);
    assert v < c.p && w < c.p;
    UnitProducts(v, c.p);
    UnitProducts(w, c.p);
    UnitProducts(c.a, c.p);
    hide MulMod;
  }

  lemma StoredAtOne(c: Curve, q: Point)
    requires ValidCurve(c) && OnCurve(c, q) && q.Affine?
    ensures Represents(c, ZZPoint(q.x, q.y, 1, 1), q)
  {
    hide Cong, Cubic;
    NotMultiple(1, c.p);
    CongRefl(1, c.p);
    CongRefl(q.x, c.p);
    CongRefl(q.y, c.p);
    assert q.x * (1 * 1) == q.x && q.y * (1 * 1 * 1) == q.y;
    assert StoredAt(c.p, ZZPoint(q.x, q.y, 1, 1), q.x, q.y, 1);
  }

  // ---------------------------------------------------------------------------------------------
  // Mixed addition

  lemma ChordScales(x1: int, x2: int, y1: int, y2: int, l: int, z: int, d: int, w: int)
    requires d == x2 - x1 && w == d * (z * z * z)
    ensures x2 * (z * z) + -(x1 * (z * z)) == d * (z * z)
    ensures y2 * (z * z * z) + -(y1 * (z * z * z)) == (y2 - y1) * (z * z * z)
    ensures (l * d) * (z * z * z) == l * w
    ensures (z * z) * ((d * (z * z)) * (d * (z * z))) == w * w
    ensures (x1 * (z * z)) * ((d * (z * z)) * (d * (z * z))) == x1 * (w * w)
    ensures ((d * (z * z)) * (d * (z * z))) * (d * (z * z)) == d * (w * w)
    ensures (z * z * z) * (d * (w * w)) == w * w * w
    ensures (y1 * (z * z * z)) * (d * (w * w)) == y1 * (w * w * w)
  {
    var z2, z3 := z * z, z * z * z;
    ScaleSquare(d, z);
    var dd := (d * z2) * (d * z2);
    Regroup(x1, z2, dd);
    Regroup(d, z2, dd);
    Regroup(z3, d, w * w);
    Regroup(y1, z3, d * (w * w));
    Regroup(l, d, z3);
    assert dd * (d * z2) == (d * z2) * dd;
    assert z3 * d == w;
  }

  lemma ScaleSquare(d: int, z: int)
    ensures (z * z) * ((d * (z * z)) * (d * (z * z))) == (d * (z * z * z)) * (d * (z * z * z))
  {
  }

  /** x3 = r^2 - d^3 - 2q, with r = l w, d^3 = d w^2 and q = x1 w^2. */
  lemma ChordX(p: nat, r: nat, ddd: nat, q: nat, l: int, x1: int, x2: int, w: int, x3: int)
    requires p > 0 && Cong(r, l * w, p) && Cong(ddd, (x2 - x1) * (w * w), p) && Cong(q, x1 * (w * w), p)
    requires Cong(x3, l * l - x1 - x2, p)
    ensures Cong(AddMod(AddMod(MulMod(r, r, p), p - ddd, p), MulMod(p - 2, q, p), p), x3 * (w * w), p)
    ensures AddMod(AddMod(MulMod(r, r, p), p - ddd, p), MulMod(p - 2, q, p), p) < p
  {
    hide Cong, MulMod, AddMod;
    CongRefl(2, p);
    NegateCong(2, 2, p);
    MulModCong(r, l * w, r, l * w, p);
    NegateCong(ddd, (x2 - x1) * (w * w), p);
    AddModCong(MulMod(r, r, p), (l * w) * (l * w), p - ddd, -((x2 - x1) * (w * w)), p);
    MulModCong(p - 2, -2, q, x1 * (w * w), p);
    var k := AddMod(MulMod(r, r, p), p - ddd, p);
    AddModCong(k, (l * w) * (l * w) + -((x2 - x1) * (w * w)), MulMod(p - 2, q, p), -2 * (x1 * (w * w)), p);
    ChordIdentityX(l, x1, x2, w);
    Rescale(AddMod(k, MulMod(p - 2, q, p), p), l * l - x1 - x2, x3, w * w, p);
  }

  /** y3 = r (q - x3) - y1 d^3. */
  lemma ChordY(p: nat, r: nat, q: nat, x3': nat, f: nat, g: nat,
               l: int, x: int, w: int, x3: int, f': int, g': int, y: int, y3: int)
    requires p > 0 && Cong(r, l * w, p) && Cong(q, x * (w * w), p) && Cong(x3', x3 * (w * w), p)
    requires Cong(f, f', p) && Cong(g, g', p) && f' * g' == y * (w * w * w)
    requires Cong(y3, l * (x - x3) - y, p)
    ensures Cong(AddMod(MulMod(AddMod(q, p - x3', p), r, p), MulMod(p - f, g, p), p), y3 * (w * w * w), p)
    ensures AddMod(MulMod(AddMod(q, p - x3', p), r, p), MulMod(p - f, g, p), p) < p
  {
    FinishY(p, r, q, x3', f, g, l, x, w, x3, f', g', y, y3);
    var k := AddMod(q, p - x3', p);
    assert r * k == k * r;
    assert MulMod(r, k, p) == MulMod(k, r, p);
  }

  /** The differences that select the case of the addition. */
  lemma DaddDifferences(p: nat, s: ZZPoint, x1: int, y1: int, z: int, x2: nat, y2: nat)
    requires p > 0 && Reduced(p, s) && StoredAt(p, s, x1, y1, z)
    ensures var r := AddMod(MulMod(y2, s.zzz, p), p - s.y, p);
      r < p && Cong(r, (y2 - y1) * (z * z * z), p)
    ensures var d := AddMod(MulMod(x2, s.zz, p), p - s.x, p);
      d < p && Cong(d, (x2 - x1) * (z * z), p)
  {
    hide Cong, MulMod, AddMod;
    var z2, z3 := z * z, z * z * z;
    CongRefl(x2, p);
    CongRefl(y2, p);
    MulModCong(y2, y2, s.zzz, z3, p);
    NegateCong(s.y, y1 * z3, p);
    AddModCong(MulMod(y2, s.zzz, p), y2 * z3, p - s.y, -(y1 * z3), p);
    MulModCong(x2, x2, s.zz, z2, p);
    NegateCong(s.x, x1 * z2, p);
    AddModCong(MulMod(x2, s.zz, p), x2 * z2, p - s.x, -(x1 * z2), p);
    ChordScales(x1, x2, y1, y2, 0, z, x2 - x1, (x2 - x1) * z3);
  }

  /** The line-by-line congruences of the chord case; the new scale is w = (x2 - x1) z^3. */
  lemma DaddWalk(c: Curve, s: ZZPoint, x1: int, y1: int, z: int, x2: nat, y2: nat, l: int, x3: int, y3: int)
    requires IsPrime(c.p) && Reduced(c.p, s) && StoredAt(c.p, s, x1, y1, z)
    requires !AffIsInf(x2, y2) && !Cong(x2 - x1, 0, c.p)
    requires Cong(l * (x2 - x1), y2 - y1, c.p)
    requires Cong(x3, l * l - x1 - x2, c.p) && Cong(y3, l * (x1 - x3) - y1, c.p)
    ensures Reduced(c.p, DaddAffine(c, s, x2, y2))
    ensures StoredAt(c.p, DaddAffine(c, s, x2, y2), x3, y3, (x2 - x1) * (z * z * z))
  {
    hide Cong, IsPrime, MulMod, AddMod, DoubleAffine;
    var p := c.p;
    StoredIsFinite(p, s, x1, y1, z);
    var z2, z3 := z * z, z * z * z;
    var e := x2 - x1;
    var w := e * z3;
    ChordScales(x1, x2, y1, y2, l, z, e, w);
    ScaleNonZero(p, z);
    EuclidLemma(e, z3, p);
    EuclidLemma(e, z2, p);

    DaddDifferences(p, s, x1, y1, z, x2, y2);
    var r := AddMod(MulMod(y2, s.zzz, p), p - s.y, p);
    CongRefl(z3, p);
    CongSym(l * e, y2 - y1, p);
    CongMul(y2 - y1, l * e, z3, z3, p);
    CongTrans(r, (y2 - y1) * z3, l * w, p);
    var d := AddMod(MulMod(x2, s.zz, p), p - s.x, p);
    ReducedZero(d, e * z2, p);

    var dd := MulMod(d, d, p);
    MulModCong(d, e * z2, d, e * z2, p);
    var ddd := MulMod(dd, d, p);
    MulModCong(dd, (e * z2) * (e * z2), d, e * z2, p);
    var q := MulMod(s.x, dd, p);
    MulModCong(s.x, x1 * z2, dd, (e * z2) * (e * z2), p);
    ChordX(p, r, ddd, q, l, x1, x2, w, x3);
    var x3' := AddMod(AddMod(MulMod(r, r, p), p - ddd, p), MulMod(p - 2, q, p), p);
    ChordY(p, r, q, x3', s.y, ddd, l, x1, w, x3, y1 * z3, e * (w * w), y1, y3);
    MulModCong(s.zz, z2, dd, (e * z2) * (e * z2), p);
    MulModCong(s.zzz, z3, ddd, e * (w * w), p);
  }

  /** Which case the addition takes when the abscissae coincide. */
  lemma DaddSameX(c: Curve, s: ZZPoint, q1: Point, z: int, y2: nat)
    requires ValidCurve(c) && q1.Affine? && q1.x < c.p && q1.y < c.p && y2 < c.p
    requires Reduced(c.p, s) && StoredAt(c.p, s, q1.x, q1.y, z) && !AffIsInf(q1.x, y2)
    ensures DaddAffine(c, s, q1.x, y2)
         == if q1.y == y2 then DoubleAffine(c, q1.x, y2) else AT_INFINITY
  {
    hide Cong, IsPrime, MulMod, AddMod, DoubleAffine;
    var p := c.p;
    StoredIsFinite(p, s, q1.x, q1.y, z);
    ScaleNonZero(p, z);
    DaddDifferences(p, s, q1.x, q1.y, z, q1.x, y2);
    var r := AddMod(MulMod(y2, s.zzz, p), p - s.y, p);
    var d := AddMod(MulMod(q1.x, s.zz, p), p - s.x, p);
    assert (q1.x - q1.x) * (z * z) == 0;
    CongRefl(0, p);
    ReducedZero(d, (q1.x - q1.x) * (z * z), p);
    ReducedZero(r, (y2 - q1.y) * (z * z * z), p);
    EuclidLemma(y2 - q1.y, z * z * z, p);
    DistinctResidues(y2, q1.y, p);
  }

  /** ecZZ_dadd_affine is the addition of the group, infinity, doubling and cancellation included. */
  lemma DaddRefines(c: Curve, s: ZZPoint, q1: Point, x2: nat, y2: nat, q2: Point)
    requires ValidCurve(c) && OnCurve(c, q1) && OnCurve(c, q2)
    requires Represents(c, s, q1) && AffRepresents(x2, y2, q2)
    ensures Represents(c, DaddAffine(c, s, x2, y2), Add(c, q1, q2))
  {
    hide Cong, IsPrime, Add, Cubic, MulMod, AddMod, DoubleAffine;
    if q2.Infinity? {
      AddInfinity(c, q1);
      if q1.Affine? {
        var z :| StoredAt(c.p, s, q1.x, q1.y, z);
        StoredIsFinite(c.p, s, q1.x, q1.y, z);
      }
    } else {
      OriginOffCurve(c);
      if q1.Infinity? {
        AddInfinity(c, q2);
        StoredAtOne(c, q2);
      } else {
        var z :| StoredAt(c.p, s, q1.x, q1.y, z);
        hide DaddAffine;
        if q1.x != q2.x {
          DistinctResidues(q2.x, q1.x, c.p);
          var l := AddChord(c, q1, q2);
          DaddWalk(c, s, q1.x, q1.y, z, q2.x, q2.y, l, Add(c, q1, q2).x, Add(c, q1, q2).y);
        } else {
          DaddSameX(c, s, q1, z, q2.y);
          AddSameX(c, q1, q2);
          if q1.y == q2.y {
            DoubleAffineIsDouble(c, q2.x, q2.y);
            StoredAtOne(c, q2);
            DoubleRefines(c, ZZPoint(q2.x, q2.y, 1, 1), q2);
          }
        }
      }
    }
  }

  // ---------------------------------------------------------------------------------------------
  // Back to affine coordinates

  lemma SetAffFinite(c: Curve, s: ZZPoint, x: nat, y: nat, z: int)
    requires ValidCurve(c) && Reduced(c.p, s) && x < c.p && y < c.p && StoredAt(c.p, s, x, y, z)
    ensures SetAff(c, s) == (x, y)
  {
    hide Cong, IsPrime, MulMod, AddMod, ModInv;
    var p := c.p;
    StoredIsFinite(p, s, x, y, z);
    var z2, z3 := z * z, z * z * z;
    ScaleNonZero(p, z);
    ReducedZero(s.zzz, z3, p);
    ModInvCorrect(s.zzz, p);
    CongRefl(s.zzz, p);
    ReducedSelf(s.zzz, p);
    var i := PModInv(c, s.zzz);
    CongRefl(i, p);
    CongMul(s.zzz, z3, i, i, p);
    CongSym(s.zzz * i, z3 * i, p);
    CongTrans(z3 * i, s.zzz * i, 1, p);
    var zInv := MulMod(s.zz, i, p);
    MulModCong(s.zz, z2, i, i, p);
    var zzInv := MulMod(zInv, zInv, p);
    MulModCong(zInv, z2 * i, zInv, z2 * i, p);
    MulModCong(s.x, x * z2, zzInv, (z2 * i) * (z2 * i), p);
    MulModCong(s.y, y * z3, i, i, p);
    UnitScaleX(x, z, i);
    UnitScaleY(y, z, i);
    CongMul(z3 * i, 1, z3 * i, 1, p);
    Rescaled(MulMod(s.x, zzInv, p), x, (z3 * i) * (z3 * i), p);
    Rescaled(MulMod(s.y, i, p), y, z3 * i, p);
  }

  lemma UnitScaleX(x: int, z: int, i: int)
    ensures (x * (z * z)) * (((z * z) * i) * ((z * z) * i)) == x * (((z * z * z) * i) * ((z * z * z) * i))
  {
    assert (z * z) * (((z * z) * i) * ((z * z) * i)) == ((z * z * z) * i) * ((z * z * z) * i);
  }

  lemma UnitScaleY(y: int, z: int, i: int)
    ensures (y * (z * z * z)) * i == y * ((z * z * z) * i)
  {
  }

  /** ecZZ_SetAff recovers the affine point. */
  lemma SetAffCorrect(c: Curve, s: ZZPoint, q: Point)
    requires ValidCurve(c) && OnCurve(c, q) && Represents(c, s, q)
    ensures AffRepresents(SetAff(c, s).0, SetAff(c, s).1, q)
  {
    if q.Affine? {
      var z :| StoredAt(c.p, s, q.x, q.y, z);
      SetAffFinite(c, s, q.x, q.y, z);
    }
  }

  /** ecAff_add is the addition of the group on affine pairs. */
  lemma AffAddCorrect(c: Curve, x1: nat, y1: nat, q1: Point, x2: nat, y2: nat, q2: Point)
    requires ValidCurve(c) && OnCurve(c, q1) && OnCurve(c, q2)
    requires AffRepresents(x1, y1, q1) && AffRepresents(x2, y2, q2)
    ensures var (x3, y3) := AffAdd(c, x1, y1, x2, y2); AffRepresents(x3, y3, Add(c, q1, q2))
  {
    hide Cong, IsPrime, Add, Cubic, SetAff, DaddAffine, OnCurve;
    if q1.Infinity? {
      AddInfinity(c, q2);
    } else if q2.Infinity? {
      OriginOffCurve(c);
      AddInfinity(c, q1);
    } else {
      OriginOffCurve(c);
      StoredAtOne(c, q1);
      DaddRefines(c, ZZPoint(x1, y1, 1, 1), q1, x2, y2, q2);
      SetAffCorrect(c, DaddAffine(c, ZZPoint(x1, y1, 1, 1), x2, y2), Add(c, q1, q2));
    }
  }

  // ---------------------------------------------------------------------------------------------
  // The curve equation in XYZZ coordinates

  ghost predicate OnCurveZZ(c: Curve, s: ZZPoint) {
    ZZIsInf(s) ||
    (&& Cong(s.y * s.y, s.x * s.x * s.x + c.a * s.x * (s.zz * s.zz) + c.b * (s.zz * s.zz * s.zz), c.p)
     && Cong(s.zz * s.zz * s.zz, s.zzz * s.zzz, c.p))
  }

  /** Every tuple that represents a curve point satisfies both equations. */
  lemma RepresentsOnCurve(c: Curve, s: ZZPoint, q: Point)
    requires ValidCurve(c) && OnCurve(c, q) && Represents(c, s, q)
    ensures OnCurveZZ(c, s)
  {
    if q.Affine? {
      var z :| StoredAt(c.p, s, q.x, q.y, z);
      StoredOnCurve(c, s, q.x, q.y, z);
    }
  }

  lemma StoredOnCurve(c: Curve, s: ZZPoint, x: nat, y: nat, z: int)
    requires OnCurve(c, Affine(x, y)) && StoredAt(c.p, s, x, y, z)
    ensures Cong(s.y * s.y, s.x * s.x * s.x + c.a * s.x * (s.zz * s.zz) + c.b * (s.zz * s.zz * s.zz), c.p)
    ensures Cong(s.zz * s.zz * s.zz, s.zzz * s.zzz, c.p)
  {
    hide Cong, Cubic;
    var p := c.p;
    var z2, z3 := z * z, z * z * z;
    var z6 := z3 * z3;
    ScalePowers(y, z);
    CongMul(s.zzz, z3, s.zzz, z3, p);
    CongMul(s.zz, z2, s.zz, z2, p);
    CongMul(s.zz * s.zz, z2 * z2, s.zz, z2, p);
    CongSym(s.zzz * s.zzz, z6, p);
    CongTrans(s.zz * s.zz * s.zz, z6, s.zzz * s.zzz, p);

    CongMul(s.y, y * z3, s.y, y * z3, p);
    CongRefl(z6, p);
    CongMul(y * y, Cubic(c, x), z6, z6, p);
    CongTrans(s.y * s.y, (y * y) * z6, Cubic(c, x) * z6, p);
    WeightedSum(c, s, x, z);
    var t := s.x * s.x * s.x + c.a * s.x * (s.zz * s.zz) + c.b * (s.zz * s.zz * s.zz);
    CongSym(t, Cubic(c, x) * z6, p);
    CongTrans(s.y * s.y, Cubic(c, x) * z6, t, p);
  }

  lemma ScalePowers(y: int, z: int)
    ensures (z * z) * (z * z) * (z * z) == (z * z * z) * (z * z * z)
    ensures (y * (z * z * z)) * (y * (z * z * z)) == (y * y) * ((z * z * z) * (z * z * z))
  {
  }

  lemma WeightedSum(c: Curve, s: ZZPoint, x: int, z: int)
    requires Cong(s.x, x * (z * z), c.p) && Cong(s.zz, z * z, c.p)
    ensures Cong(s.x * s.x * s.x + c.a * s.x * (s.zz * s.zz) + c.b * (s.zz * s.zz * s.zz),
                 Cubic(c, x) * ((z * z * z) * (z * z * z)), c.p)
  {
    hide Cong, Cubic;
    var p := c.p;
    var z2 := z * z;
    var u := x * z2;
    CongMul(s.x, u, s.x, u, p);
    CongMul(s.x * s.x, u * u, s.x, u, p);
    CongMul(s.zz, z2, s.zz, z2, p);
    CongMul(s.zz * s.zz, z2 * z2, s.zz, z2, p);
    CongRefl(c.a, p);
    CongRefl(c.b, p);
    CongMul(c.a, c.a, s.x, u, p);
    CongMul(c.a * s.x, c.a * u, s.zz * s.zz, z2 * z2, p);
    CongMul(c.b, c.b, s.zz * s.zz * s.zz, z2 * z2 * z2, p);
    var t1, t2, t3 := s.x * s.x * s.x, c.a * s.x * (s.zz * s.zz), c.b * (s.zz * s.zz * s.zz);
    CongAdd(t1, u * u * u, t2, c.a * u * (z2 * z2), p);
    CongAdd(t1 + t2, u * u * u + c.a * u * (z2 * z2), t3, c.b * (z2 * z2 * z2), p);
    WeightedCubic(c, x, z);
  }

  lemma WeightedCubic(c: Curve, x: int, z: int)
    ensures var z2 := z * z;
      var u := x * z2;
      u * u * u + c.a * u * (z2 * z2) + c.b * (z2 * z2 * z2) == Cubic(c, x) * ((z * z * z) * (z * z * z))
  {
    var z2 := z * z;
    var z6 := z2 * z2 * z2;
    ScalePowers(0, z);
    CubicTerms(c.a, x, z2);
    Distribute(x * x * x, c.a * x, c.b, z6);
    assert Cubic(c, x) == x * x * x + c.a * x + c.b;
  }

  lemma CubicTerms(a: int, x: int, z2: int)
    ensures (x * z2) * (x * z2) * (x * z2) == (x * x * x) * (z2 * z2 * z2)
    ensures a * (x * z2) * (z2 * z2) == (a * x) * (z2 * z2 * z2)
  {
  }

  lemma Distribute(a: int, b: int, c: int, w: int)
    ensures a * w + b * w + c * w == (a + b + c) * w
  {
  }

}
