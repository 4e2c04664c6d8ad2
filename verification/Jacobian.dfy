/**
 * Jacobian point arithmetic of contracts/enclave-smart-account/SECP256R1.sol: the affine point (x, y)
 * is stored as (x z^2, y z^3, z), and z = 0 is infinity.
 */
module Jacobian {
  import opened Words
  import opened Congruence
  import opened NumberTheory
  import opened FieldArith
  import opened Curves

  datatype JPoint = JPoint(x: nat, y: nat, z: nat)

  function JacobianDouble(c: Curve, s: JPoint): (r: JPoint) {
    var p := c.p;
    var z2 := MulMod(s.z, s.z, p);
    var az4 := MulMod(c.a, MulMod(z2, z2, p), p);
    var y2 := MulMod(s.y, s.y, p);
    var t := MulMod(4, MulMod(s.x, y2, p), p);
    var u := MulMod(8, MulMod(y2, y2, p), p);
    var m := AddMod(MulMod(3, MulMod(s.x, s.x, p), p), az4, p);
    var x3 := SubtractMod(MulMod(m, m, p), MulMod(2, t, p), p);
    var y3 := SubtractMod(MulMod(m, SubtractMod(t, x3, p), p), u, p);
    JPoint(x3, y3, MulMod(2, MulMod(s.y, s.z, p), p))
  }

  function JAdd(c: Curve, s: JPoint, t: JPoint): (r: JPoint) {
    if s.z == 0 then t
    else if t.z == 0 then s
    else
      var p := c.p;
      var z1z1 := MulMod(s.z, s.z, p);
      var z2z2 := MulMod(t.z, t.z, p);
      var u1 := MulMod(s.x, z2z2, p);
      var u2 := MulMod(t.x, z1z1, p);
      var s1 := MulMod(s.y, MulMod(z2z2, t.z, p), p);
      var s2 := MulMod(t.y, MulMod(z1z1, s.z, p), p);
      var zSum := AddMod(s.z, t.z, p);
      var h := SubtractMod(u2, u1, p);
      var h2 := MulMod(2, h, p);
      var i := MulMod(h2, h2, p);
      var j := MulMod(h, i, p);
      var rr := MulMod(2, SubtractMod(s2, s1, p), p);
      var v := MulMod(u1, i, p);
      var r1 := SubtractMod(MulMod(rr, rr, p), AddMod(j, MulMod(2, v, p), p), p);
      var s12j := MulMod(MulMod(2, s1, p), j, p);
      var r2 := SubtractMod(MulMod(rr, SubtractMod(v, r1, p), p), s12j, p);
      var r3 := MulMod(SubtractMod(MulMod(zSum, zSum, p), AddMod(z1z1, z2z2, p), p), h, p);
      JPoint(r1, r2, r3)
  }

  function AffineFromJacobian(c: Curve, s: JPoint): (r: (nat, nat))
    requires c.p >= 2
  {
    if s.z == 0 then (0, 0) else
    var p := c.p;
    var zInv := ModExp(s.z, p - 2, p);
    var zInvSq := MulMod(zInv, zInv, p);
    (MulMod(s.x, zInvSq, p), MulMod(s.y, MulMod(zInvSq, zInv, p), p))
  }

  // ---------------------------------------------------------------------------------------------
  // Which point a triple stands for

  ghost predicate Stored(p: nat, s: JPoint, x: int, y: int, z: int) {
    && s.x < p && s.y < p && s.z < p && Cong(s.z, z, p)
    && Cong(s.x, x * (z * z), p) && Cong(s.y, y * (z * z * z), p)
  }

  ghost predicate Represents(c: Curve, s: JPoint, q: Point) {
    && s.x < c.p && s.y < c.p && s.z < c.p
    && (if q.Infinity? then s.z == 0 else s.z != 0 && Stored(c.p, s, q.x, q.y, s.z))
  }

  /** Infinity is stored exactly by the triples with z = 0. */
  lemma RepresentsFinite(c: Curve, s: JPoint, q: Point)
    requires Represents(c, s, q)
    ensures q.Infinity? <==> s.z == 0
  {
  }

  lemma ScaleForm(c: Curve, s: JPoint, q: Point, w: int)
    requires IsPrime(c.p) && q.Affine? && Stored(c.p, s, q.x, q.y, w) && !Cong(w, 0, c.p)
    ensures Represents(c, s, q)
  {
    hide Cong, IsPrime;
    var p := c.p;
    ReducedZero(s.z, w, p);
    var z := s.z;
    CongSym(z, w, p);
    CongMul(w, z, w, z, p);
    CongMul(w * w, z * z, w, z, p);
    CongRefl(q.x, p);
    CongRefl(q.y, p);
    CongMul(q.x, q.x, w * w, z * z, p);
    CongMul(q.y, q.y, w * w * w, z * z * z, p);
    CongTrans(s.x, q.x * (w * w), q.x * (z * z), p);
    CongTrans(s.y, q.y * (w * w * w), q.y * (z * z * z), p);
    CongRefl(z, p);
  }

  lemma SubCong(a: nat, a': int, b: nat, b': int, p: nat)
    requires a < p && b < p < R && Cong(a, a', p) && Cong(b, b', p)
    ensures SubtractMod(a, b, p) < p && Cong(SubtractMod(a, b, p), a' - b', p)
  {
    hide Cong, SubtractMod;
    SubtractModSpec(a, b, p);
    CongSub(a, a', b, b', p);
    CongTrans(SubtractMod(a, b, p), a - b, a' - b', p);
  }

  // ---------------------------------------------------------------------------------------------
  // The last lines, common to doubling and addition

  /** y3 = m (s - x3) - u, with m = l w, s = x w^2 and u = y w^3. */
  lemma FinishY(p: nat, m: nat, s: nat, x3': nat, u: nat, l: int, x: int, w: int, x3: int, y: int, y3: int)
    requires 0 < p < R && m < p && s < p && x3' < p && u < p
    requires Cong(m, l * w, p) && Cong(s, x * (w * w), p) && Cong(x3', x3 * (w * w), p)
    requires Cong(u, y * (w * w * w), p) && Cong(y3, l * (x - x3) - y, p)
    ensures SubtractMod(MulMod(m, SubtractMod(s, x3', p), p), u, p) < p
    ensures Cong(SubtractMod(MulMod(m, SubtractMod(s, x3', p), p), u, p), y3 * (w * w * w), p)
  {
    hide Cong, MulMod, SubtractMod;
    SubCong(s, x * (w * w), x3', x3 * (w * w), p);
    var k := SubtractMod(s, x3', p);
    MulModCong(m, l * w, k, x * (w * w) - x3 * (w * w), p);
    SubCong(MulMod(m, k, p), (l * w) * (x * (w * w) - x3 * (w * w)), u, y * (w * w * w), p);
    LineIdentityY(l, x, x3, y, w);
    Rescale(SubtractMod(MulMod(m, k, p), u, p), l * (x - x3) - y, y3, w * w * w, p);
  }

  // ---------------------------------------------------------------------------------------------
  // Doubling

  lemma DoubleScales(a: int, x: int, y: int, z: int, l: int, w: int)
    requires w == 2 * ((y * (z * z * z)) * z)
    ensures 3 * ((x * (z * z)) * (x * (z * z))) + a * ((z * z) * (z * z)) == (3 * x * x + a) * ((z * z) * (z * z))
    ensures (l * (2 * y)) * ((z * z) * (z * z)) == l * w
    ensures 4 * ((x * (z * z)) * ((y * (z * z * z)) * (y * (z * z * z)))) == x * (w * w)
    ensures 8 * (((y * (z * z * z)) * (y * (z * z * z))) * ((y * (z * z * z)) * (y * (z * z * z)))) == y * (w * w * w)
  {
    var t := z * z * z;
    NumeratorIdentity(a, x, z);
    assert w == 2 * y * (z * t);
    assert z * t == (z * z) * (z * z);
    assert 4 * ((x * (z * z)) * ((y * t) * (y * t))) == x * ((2 * y * (z * t)) * (2 * y * (z * t)));
    CubeOfScale(y, z, t);
  }

  lemma CubeOfScale(y: int, z: int, t: int)
    requires t == z * z * z
    ensures 8 * (((y * t) * (y * t)) * ((y * t) * (y * t)))
         == y * ((2 * ((y * t) * z)) * (2 * ((y * t) * z)) * (2 * ((y * t) * z)))
  {
    var b := y * t;
    assert (2 * (b * z)) * (2 * (b * z)) * (2 * (b * z)) == 8 * (b * b * b * t);
    assert y * (8 * (b * b * b * t)) == 8 * ((b * b) * (b * (y * t)));
  }

  /** The line-by-line congruences of the tangent case; the new scale is w = 2 y z^4. */
  lemma DoubleWalk(c: Curve, s: JPoint, x: int, y: int, z: int, l: int, x3: int, y3: int, w: int)
    requires 0 < c.p < R && Stored(c.p, s, x, y, z) && w == 2 * ((y * (z * z * z)) * z)
    requires Cong(l * (2 * y), 3 * x * x + c.a, c.p)
    requires Cong(x3, l * l - x - x, c.p) && Cong(y3, l * (x - x3) - y, c.p)
    ensures Stored(c.p, JacobianDouble(c, s), x3, y3, w)
  {
    hide Cong, MulMod, AddMod, SubtractMod;
    var p := c.p;
    var zz, zzz := z * z, z * z * z;
    var b := y * zzz;
    DoubleScales(c.a, x, y, z, l, w);
    CongRefl(2, p);
    CongRefl(3, p);
    CongRefl(4, p);
    CongRefl(8, p);
    CongRefl(c.a, p);
    MulModCong(s.z, z, s.z, z, p);
    var z2 := MulMod(s.z, s.z, p);
    MulModCong(z2, zz, z2, zz, p);
    MulModCong(c.a, c.a, MulMod(z2, z2, p), zz * zz, p);
    var az4 := MulMod(c.a, MulMod(z2, z2, p), p);
    MulModCong(s.y, b, s.y, b, p);
    var y2 := MulMod(s.y, s.y, p);
    MulModCong(s.x, x * zz, y2, b * b, p);
    MulModCong(4, 4, MulMod(s.x, y2, p), (x * zz) * (b * b), p);
    var t := MulMod(4, MulMod(s.x, y2, p), p);
    MulModCong(y2, b * b, y2, b * b, p);
    MulModCong(8, 8, MulMod(y2, y2, p), (b * b) * (b * b), p);
    var u := MulMod(8, MulMod(y2, y2, p), p);
    MulModCong(s.x, x * zz, s.x, x * zz, p);
    MulModCong(3, 3, MulMod(s.x, s.x, p), (x * zz) * (x * zz), p);
    var xx3 := MulMod(3, MulMod(s.x, s.x, p), p);
    AddModCong(xx3, 3 * ((x * zz) * (x * zz)), az4, c.a * (zz * zz), p);
    var m := AddMod(xx3, az4, p);
    CongRefl(zz * zz, p);
    CongSym(l * (2 * y), 3 * x * x + c.a, p);
    CongMul(3 * x * x + c.a, l * (2 * y), zz * zz, zz * zz, p);
    CongTrans(m, (3 * x * x + c.a) * (zz * zz), l * w, p);
    TangentX(p, m, t, l, x, w, x3);
    var x3' := SubtractMod(MulMod(m, m, p), MulMod(2, t, p), p);
    FinishY(p, m, t, x3', u, l, x, w, x3, y, y3);
    MulModCong(s.y, b, s.z, z, p);
    MulModCong(2, 2, MulMod(s.y, s.z, p), b * z, p);
  }

  lemma TangentX(p: nat, m: nat, t: nat, l: int, x: int, w: int, x3: int)
    requires 0 < p < R && m < p && t < p && Cong(m, l * w, p) && Cong(t, x * (w * w), p)
    requires Cong(x3, l * l - x - x, p)
    ensures SubtractMod(MulMod(m, m, p), MulMod(2, t, p), p) < p
    ensures Cong(SubtractMod(MulMod(m, m, p), MulMod(2, t, p), p), x3 * (w * w), p)
  {
    hide Cong, MulMod, SubtractMod;
    CongRefl(2, p);
    MulModCong(m, l * w, m, l * w, p);
    MulModCong(2, 2, t, x * (w * w), p);
    SubCong(MulMod(m, m, p), (l * w) * (l * w), MulMod(2, t, p), 2 * (x * (w * w)), p);
    TangentIdentityX(l, x, w);
    Rescale(SubtractMod(MulMod(m, m, p), MulMod(2, t, p), p), l * l - x - x, x3, w * w, p);
  }

  /** The third coordinate of the double vanishes with y or z. */
  lemma DoubleZ(c: Curve, s: JPoint)
    requires IsPrime(c.p) && c.p < R && s.x < c.p && s.y < c.p && s.z < c.p
    ensures JacobianDouble(c, s).x < c.p && JacobianDouble(c, s).y < c.p && JacobianDouble(c, s).z < c.p
    ensures JacobianDouble(c, s).z == 0 <==> Cong(2 * s.y, 0, c.p) || s.z == 0
  {
    hide Cong, SubtractMod, MulMod, AddMod, IsPrime;
    var p := c.p;
    CongRefl(2, p);
    CongRefl(s.y, p);
    CongRefl(s.z, p);
    MulModCong(s.y, s.y, s.z, s.z, p);
    MulModCong(2, 2, MulMod(s.y, s.z, p), s.y * s.z, p);
    assert 2 * (s.y * s.z) == (2 * s.y) * s.z;
    ReducedZero(JacobianDouble(c, s).z, (2 * s.y) * s.z, p);
    EuclidLemma(2 * s.y, s.z, p);
    ReducedZero(s.z, s.z, p);
    DoubleBounds(c, s);
  }

  lemma MulModBound(a: int, b: int, p: nat)
    requires p > 0
    ensures MulMod(a, b, p) < p
  {
  }

  lemma AddModBound(a: int, b: int, p: nat)
    requires p > 0
    ensures AddMod(a, b, p) < p
  {
  }

  lemma DoubleBounds(c: Curve, s: JPoint)
    requires 0 < c.p < R
    ensures JacobianDouble(c, s).x < c.p && JacobianDouble(c, s).y < c.p && JacobianDouble(c, s).z < c.p
  {
    hide SubtractMod, MulMod, AddMod, Cong;
    var p := c.p;
    var y2 := MulMod(s.y, s.y, p);
    var t := MulMod(4, MulMod(s.x, y2, p), p);
    var u := MulMod(8, MulMod(y2, y2, p), p);
    var z2 := MulMod(s.z, s.z, p);
    var m := AddMod(MulMod(3, MulMod(s.x, s.x, p), p), MulMod(c.a, MulMod(z2, z2, p), p), p);
    MulModBound(m, m, p);
    MulModBound(2, t, p);
    MulModBound(4, MulMod(s.x, y2, p), p);
    MulModBound(8, MulMod(y2, y2, p), p);
    SubtractModSpec(MulMod(m, m, p), MulMod(2, t, p), p);
    var x3 := SubtractMod(MulMod(m, m, p), MulMod(2, t, p), p);
    var k := SubtractMod(t, x3, p);
    MulModBound(m, k, p);
    SubtractModSpec(MulMod(m, k, p), u, p);
    MulModBound(2, MulMod(s.y, s.z, p), p);
  }

  lemma StoredDoubleY(p: nat, y: int, z: int, sy: nat)
    requires IsPrime(p) && Cong(sy, y * (z * z * z), p) && !Cong(z, 0, p)
    ensures Cong(2 * sy, 0, p) <==> Cong(2 * y, 0, p)
  {
    hide Cong, IsPrime;
    EuclidLemma(z, z, p);
    EuclidLemma(z * z, z, p);
    CongRefl(2, p);
    CongMul(2, 2, sy, y * (z * z * z), p);
    assert 2 * (y * (z * z * z)) == (2 * y) * (z * z * z);
    EuclidLemma(2 * y, z * z * z, p);
    if Cong(2 * sy, 0, p) {
      CongSym(2 * sy, (2 * y) * (z * z * z), p);
      CongTrans((2 * y) * (z * z * z), 2 * sy, 0, p);
    } else if Cong(2 * y, 0, p) {
      CongTrans(2 * sy, (2 * y) * (z * z * z), 0, p);
    }
  }

  /** modifiedJacobianDouble is the doubling of the group. */
  lemma DoubleRefines(c: Curve, s: JPoint, q: Point)
    requires ValidCurve(c) && OnCurve(c, q) && Represents(c, s, q)
    ensures Represents(c, JacobianDouble(c, s), Double(c, q))
  {
    hide Cong, IsPrime, JacobianDouble, Double, Add, Cubic;
    DoubleZ(c, s);
    if q.Infinity? {
      DoubleInfinity(c);
    } else {
      ReducedSelf(s.z, c.p);
      StoredDoubleY(c.p, q.y, s.z, s.y);
      if Cong(2 * q.y, 0, c.p) {
        DoubleVertical(c, q);
      } else {
        var l := AddTangent(c, q);
        var r := Double(c, q);
        var w := 2 * ((q.y * (s.z * s.z * s.z)) * s.z);
        DoubleWalk(c, s, q.x, q.y, s.z, l, r.x, r.y, w);
        ReducedZero(JacobianDouble(c, s).z, w, c.p);
        ScaleForm(c, JacobianDouble(c, s), r, w);
      }
    }
  }

  // ---------------------------------------------------------------------------------------------
  // Addition

  /** The scales of the chord case, with k = z1 z2, d = x2 - x1 and w = 2 d k^3. */
  lemma AddScales(x1: int, y1: int, z1: int, x2: int, y2: int, z2: int, k: int)
    requires k == z1 * z2
    ensures (x1 * (z1 * z1)) * (z2 * z2) == x1 * (k * k)
    ensures (x2 * (z2 * z2)) * (z1 * z1) == x2 * (k * k)
    ensures (y1 * (z1 * z1 * z1)) * ((z2 * z2) * z2) == y1 * (k * k * k)
    ensures (y2 * (z2 * z2 * z2)) * ((z1 * z1) * z1) == y2 * (k * k * k)
    ensures (z1 + z2) * (z1 + z2) - (z1 * z1 + z2 * z2) == 2 * k
  {
    assert (z1 * z1) * (z2 * z2) == k * k;
    assert (x1 * (z1 * z1)) * (z2 * z2) == x1 * ((z1 * z1) * (z2 * z2));
    assert (x2 * (z2 * z2)) * (z1 * z1) == x2 * ((z1 * z1) * (z2 * z2));
    CubeProduct(z1, z2);
    assert (y1 * (z1 * z1 * z1)) * ((z2 * z2) * z2) == y1 * ((z1 * z1 * z1) * ((z2 * z2) * z2));
    assert (y2 * (z2 * z2 * z2)) * ((z1 * z1) * z1) == y2 * ((z1 * z1 * z1) * (z2 * z2 * z2));
  }

  lemma CubeProduct(z1: int, z2: int)
    ensures (z1 * z1 * z1) * (z2 * z2 * z2) == (z1 * z2) * (z1 * z2) * (z1 * z2)
  {
  }

  lemma ChordScales(x1: int, y1: int, x2: int, y2: int, l: int, d: int, k: int, w: int)
    requires d == x2 - x1 && w == (2 * k) * (d * (k * k))
    ensures x2 * (k * k) - x1 * (k * k) == d * (k * k)
    ensures y2 * (k * k * k) - y1 * (k * k * k) == (y2 - y1) * (k * k * k)
    ensures 2 * ((l * d) * (k * k * k)) == l * w
    ensures (2 * (d * (k * k))) * (2 * (d * (k * k))) * (k * k) == w * w
    ensures (x1 * (k * k)) * ((2 * (d * (k * k))) * (2 * (d * (k * k)))) == x1 * (w * w)
    ensures (d * (k * k)) * ((2 * (d * (k * k))) * (2 * (d * (k * k)))) == d * (w * w)
    ensures (2 * (y1 * (k * k * k))) * (d * (w * w)) == y1 * (w * w * w)
  {
    var kk := k * k;
    var h := d * kk;
    assert (2 * h) * (2 * h) * kk == ((2 * k) * h) * ((2 * k) * h);
    assert (x1 * kk) * ((2 * h) * (2 * h)) == x1 * ((2 * h) * (2 * h) * kk);
    assert h * ((2 * h) * (2 * h)) == d * ((2 * h) * (2 * h) * kk);
    assert (l * d) * (kk * k) == l * (k * h);
    assert (2 * (y1 * (kk * k))) * (d * (w * w)) == y1 * (((2 * k) * h) * (w * w));
  }

  /** The values that select nothing and feed everything: u1, u2, s1, s2 and the third coordinate's factor. */
  lemma AddStart(p: nat, s: JPoint, x1: int, y1: int, t: JPoint, x2: int, y2: int, k: int)
    requires 0 < p < R && Stored(p, s, x1, y1, s.z) && Stored(p, t, x2, y2, t.z) && k == s.z * t.z
    ensures var z1z1, z2z2 := MulMod(s.z, s.z, p), MulMod(t.z, t.z, p);
      && Cong(MulMod(s.x, z2z2, p), x1 * (k * k), p) && MulMod(s.x, z2z2, p) < p
      && Cong(MulMod(t.x, z1z1, p), x2 * (k * k), p) && MulMod(t.x, z1z1, p) < p
      && Cong(MulMod(s.y, MulMod(z2z2, t.z, p), p), y1 * (k * k * k), p) && MulMod(s.y, MulMod(z2z2, t.z, p), p) < p
      && Cong(MulMod(t.y, MulMod(z1z1, s.z, p), p), y2 * (k * k * k), p) && MulMod(t.y, MulMod(z1z1, s.z, p), p) < p
    ensures var z1z1, z2z2, zSum := MulMod(s.z, s.z, p), MulMod(t.z, t.z, p), AddMod(s.z, t.z, p);
      Cong(SubtractMod(MulMod(zSum, zSum, p), AddMod(z1z1, z2z2, p), p), 2 * k, p)
  {
    hide Cong, MulMod, AddMod, SubtractMod;
    var z1: int, z2: int := s.z, t.z;
    AddScales(x1, y1, z1, x2, y2, z2, k);
    CongRefl(z1, p);
    CongRefl(z2, p);
    MulModCong(s.z, z1, s.z, z1, p);
    MulModCong(t.z, z2, t.z, z2, p);
    var z1z1, z2z2 := MulMod(s.z, s.z, p), MulMod(t.z, t.z, p);
    MulModCong(s.x, x1 * (z1 * z1), z2z2, z2 * z2, p);
    MulModCong(t.x, x2 * (z2 * z2), z1z1, z1 * z1, p);
    MulModCong(z2z2, z2 * z2, t.z, z2, p);
    MulModCong(s.y, y1 * (z1 * z1 * z1), MulMod(z2z2, t.z, p), (z2 * z2) * z2, p);
    MulModCong(z1z1, z1 * z1, s.z, z1, p);
    MulModCong(t.y, y2 * (z2 * z2 * z2), MulMod(z1z1, s.z, p), (z1 * z1) * z1, p);
    AddModCong(s.z, z1, t.z, z2, p);
    var zSum := AddMod(s.z, t.z, p);
    MulModCong(zSum, z1 + z2, zSum, z1 + z2, p);
    AddModCong(z1z1, z1 * z1, z2z2, z2 * z2, p);
    SubCong(MulMod(zSum, zSum, p), (z1 + z2) * (z1 + z2), AddMod(z1z1, z2z2, p), z1 * z1 + z2 * z2, p);
  }

  /** x3 = rr^2 - (j + 2v), with rr = l w, j = d w^2 and v = x1 w^2. */
  lemma ChordX(p: nat, rr: nat, j: nat, v: nat, l: int, x1: int, x2: int, w: int, x3: int)
    requires 0 < p < R && rr < p && j < p && v < p
    requires Cong(rr, l * w, p) && Cong(j, (x2 - x1) * (w * w), p) && Cong(v, x1 * (w * w), p)
    requires Cong(x3, l * l - x1 - x2, p)
    ensures var r1 := SubtractMod(MulMod(rr, rr, p), AddMod(j, MulMod(2, v, p), p), p);
      r1 < p && Cong(r1, x3 * (w * w), p)
  {
    hide Cong, MulMod, AddMod, SubtractMod;
    CongRefl(2, p);
    MulModCong(rr, l * w, rr, l * w, p);
    MulModCong(2, 2, v, x1 * (w * w), p);
    AddModCong(j, (x2 - x1) * (w * w), MulMod(2, v, p), 2 * (x1 * (w * w)), p);
    SubCong(MulMod(rr, rr, p), (l * w) * (l * w),
            AddMod(j, MulMod(2, v, p), p), (x2 - x1) * (w * w) + 2 * (x1 * (w * w)), p);
    ChordIdentityX(l, x1, x2, w);
    Rescale(SubtractMod(MulMod(rr, rr, p), AddMod(j, MulMod(2, v, p), p), p), l * l - x1 - x2, x3, w * w, p);
  }

  /** The line-by-line congruences of the general case; the new scale is w = 2 (x2 - x1) (z1 z2)^3. */
  lemma AddWalk(c: Curve, s: JPoint, x1: int, y1: int, t: JPoint, x2: int, y2: int, l: int, x3: int, y3: int,
                k: int, d: int, w: int)
    requires 0 < c.p < R && Stored(c.p, s, x1, y1, s.z) && Stored(c.p, t, x2, y2, t.z) && s.z != 0 && t.z != 0
    requires k == s.z * t.z && d == x2 - x1 && w == (2 * k) * (d * (k * k))
    requires Cong(l * d, y2 - y1, c.p)
    requires Cong(x3, l * l - x1 - x2, c.p) && Cong(y3, l * (x1 - x3) - y1, c.p)
    ensures Stored(c.p, JAdd(c, s, t), x3, y3, w)
  {
    hide Cong, MulMod, AddMod, SubtractMod;
    var p := c.p;
    ChordScales(x1, y1, x2, y2, l, d, k, w);
    AddStart(p, s, x1, y1, t, x2, y2, k);
    CongRefl(2, p);
    var z1z1, z2z2, zSum := MulMod(s.z, s.z, p), MulMod(t.z, t.z, p), AddMod(s.z, t.z, p);
    var u1, u2 := MulMod(s.x, z2z2, p), MulMod(t.x, z1z1, p);
    var s1, s2 := MulMod(s.y, MulMod(z2z2, t.z, p), p), MulMod(t.y, MulMod(z1z1, s.z, p), p);
    SubCong(u2, x2 * (k * k), u1, x1 * (k * k), p);
    var h := SubtractMod(u2, u1, p);
    var h' := d * (k * k);
    MulModCong(2, 2, h, h', p);
    var h2 := MulMod(2, h, p);
    MulModCong(h2, 2 * h', h2, 2 * h', p);
    var i := MulMod(h2, h2, p);
    MulModCong(h, h', i, (2 * h') * (2 * h'), p);
    var j := MulMod(h, i, p);
    SubCong(s2, y2 * (k * k * k), s1, y1 * (k * k * k), p);
    var e := SubtractMod(s2, s1, p);
    CongRefl(k * k * k, p);
    CongSym(l * d, y2 - y1, p);
    CongMul(y2 - y1, l * d, k * k * k, k * k * k, p);
    CongTrans(e, (y2 - y1) * (k * k * k), (l * d) * (k * k * k), p);
    MulModCong(2, 2, e, (l * d) * (k * k * k), p);
    var rr := MulMod(2, e, p);
    MulModCong(u1, x1 * (k * k), i, (2 * h') * (2 * h'), p);
    var v := MulMod(u1, i, p);
    ChordX(p, rr, j, v, l, x1, x2, w, x3);
    var r1 := SubtractMod(MulMod(rr, rr, p), AddMod(j, MulMod(2, v, p), p), p);
    MulModCong(2, 2, s1, y1 * (k * k * k), p);
    MulModCong(MulMod(2, s1, p), 2 * (y1 * (k * k * k)), j, d * (w * w), p);
    var s12j := MulMod(MulMod(2, s1, p), j, p);
    FinishY(p, rr, v, r1, s12j, l, x1, w, x3, y1, y3);
    MulModCong(SubtractMod(MulMod(zSum, zSum, p), AddMod(z1z1, z2z2, p), p), 2 * k, h, h', p);
  }

  /** The sum of two points with the same x has third coordinate zero, equal or not. */
  lemma AddSameXVanishes(c: Curve, s: JPoint, x: int, y1: int, t: JPoint, y2: int)
    requires 0 < c.p < R && Stored(c.p, s, x, y1, s.z) && Stored(c.p, t, x, y2, t.z) && s.z != 0 && t.z != 0
    ensures JAdd(c, s, t).x < c.p && JAdd(c, s, t).y < c.p && JAdd(c, s, t).z == 0
  {
    hide Cong, MulMod, AddMod, SubtractMod;
    var p := c.p;
    var k := s.z * t.z;
    AddStart(p, s, x, y1, t, x, y2, k);
    var z1z1, z2z2, zSum := MulMod(s.z, s.z, p), MulMod(t.z, t.z, p), AddMod(s.z, t.z, p);
    var u1, u2 := MulMod(s.x, z2z2, p), MulMod(t.x, z1z1, p);
    var s1 := MulMod(s.y, MulMod(z2z2, t.z, p), p);
    SubCong(u2, x * (k * k), u1, x * (k * k), p);
    var h := SubtractMod(u2, u1, p);
    CongRefl(0, p);
    ReducedZero(h, 0, p);
    var f := SubtractMod(MulMod(zSum, zSum, p), AddMod(z1z1, z2z2, p), p);
    MulModCong(f, 2 * k, h, 0, p);
    assert (2 * k) * 0 == 0;
    ReducedZero(MulMod(f, h, p), 0, p);
    AddBounds(c, s, t);
  }

  lemma AddBounds(c: Curve, s: JPoint, t: JPoint)
    requires 0 < c.p < R && s.z != 0 && t.z != 0
    ensures JAdd(c, s, t).x < c.p && JAdd(c, s, t).y < c.p
  {
    hide SubtractMod, MulMod, AddMod, Cong;
    var p := c.p;
    var z1z1, z2z2 := MulMod(s.z, s.z, p), MulMod(t.z, t.z, p);
    var u1, u2 := MulMod(s.x, z2z2, p), MulMod(t.x, z1z1, p);
    var s1, s2 := MulMod(s.y, MulMod(z2z2, t.z, p), p), MulMod(t.y, MulMod(z1z1, s.z, p), p);
    var h := SubtractMod(u2, u1, p);
    var h2 := MulMod(2, h, p);
    var i := MulMod(h2, h2, p);
    var j := MulMod(h, i, p);
    var rr := MulMod(2, SubtractMod(s2, s1, p), p);
    var v := MulMod(u1, i, p);
    MulModBound(rr, rr, p);
    AddModBound(j, MulMod(2, v, p), p);
    SubtractModSpec(MulMod(rr, rr, p), AddMod(j, MulMod(2, v, p), p), p);
    var r1 := SubtractMod(MulMod(rr, rr, p), AddMod(j, MulMod(2, v, p), p), p);
    var k := SubtractMod(v, r1, p);
    MulModBound(rr, k, p);
    MulModBound(MulMod(2, s1, p), j, p);
    SubtractModSpec(MulMod(rr, k, p), MulMod(MulMod(2, s1, p), j, p), p);
  }

  /** The pairs that jAdd adds correctly: all but two equal finite points that do not cancel. */
  ghost predicate Addable(c: Curve, q1: Point, q2: Point)
    requires ValidCurve(c) && OnCurve(c, q1)
  {
    q1.Infinity? || q1 != q2 || Double(c, q1).Infinity?
  }

  /** The new scale of a sum of points with different x is not zero. */
  lemma AddScaleNonZero(p: nat, d: int, z1: nat, z2: nat, k: int, w: int)
    requires IsPrime(p) && p % 2 == 1 && !Cong(d, 0, p) && 0 < z1 < p && 0 < z2 < p
    requires k == z1 * z2 && w == (2 * k) * (d * (k * k))
    ensures !Cong(w, 0, p)
  {
    hide Cong;
    NotMultiple(z1, p);
    NotMultiple(z2, p);
    NotMultiple(2, p);
    hide IsPrime;
    EuclidLemma(z1, z2, p);
    EuclidLemma(2, k, p);
    EuclidLemma(k, k, p);
    EuclidLemma(d, k * k, p);
    EuclidLemma(2 * k, d * (k * k), p);
  }

  lemma AddDistinct(c: Curve, s: JPoint, q1: Point, t: JPoint, q2: Point)
    requires ValidCurve(c) && OnCurve(c, q1) && OnCurve(c, q2) && Represents(c, s, q1) && Represents(c, t, q2)
    requires q1.Affine? && q2.Affine? && q1.x != q2.x
    ensures Represents(c, JAdd(c, s, t), Add(c, q1, q2))
  {
    hide Cong, IsPrime, JAdd, Add, Cubic;
    var p := c.p;
    DistinctResidues(q2.x, q1.x, p);
    var l := AddChord(c, q1, q2);
    var r := Add(c, q1, q2);
    var k := s.z * t.z;
    var d := q2.x - q1.x;
    var w := (2 * k) * (d * (k * k));
    AddScaleNonZero(p, d, s.z, t.z, k, w);
    AddWalk(c, s, q1.x, q1.y, t, q2.x, q2.y, l, r.x, r.y, k, d, w);
    ScaleForm(c, JAdd(c, s, t), r, w);
  }

  /** What jAdd computes on every pair: it takes two equal finite points to infinity. */
  ghost function ChordOnlyAdd(c: Curve, q1: Point, q2: Point): (r: Point)
    requires ValidCurve(c) && OnCurve(c, q1) && OnCurve(c, q2)
    ensures OnCurve(c, r)
  {
    if q1.Affine? && q1 == q2 then Infinity else Add(c, q1, q2)
  }

  lemma ChordOnlyIff(c: Curve, q1: Point, q2: Point)
    requires ValidCurve(c) && OnCurve(c, q1) && OnCurve(c, q2)
    ensures ChordOnlyAdd(c, q1, q2) == Add(c, q1, q2) <==> Addable(c, q1, q2)
  {
    hide ValidCurve, OnCurve, Add;
    if q1.Affine? && q1 == q2 {
      AddSameX(c, q1, q2);
    }
  }

  lemma AddRefinesChordOnly(c: Curve, s: JPoint, q1: Point, t: JPoint, q2: Point)
    requires ValidCurve(c) && OnCurve(c, q1) && OnCurve(c, q2) && Represents(c, s, q1) && Represents(c, t, q2)
    ensures Represents(c, JAdd(c, s, t), ChordOnlyAdd(c, q1, q2))
  {
    hide Cong, IsPrime, Add, Cubic, MulMod, AddMod, SubtractMod;
    if q1.Infinity? {
      AddInfinity(c, q2);
    } else if q2.Infinity? {
      AddInfinity(c, q1);
    } else {
      hide JAdd;
      if q1.x != q2.x {
        AddDistinct(c, s, q1, t, q2);
      } else {
        AddSameXVanishes(c, s, q1.x, q1.y, t, q2.y);
        AddSameX(c, q1, q2);
      }
    }
  }

  /** jAdd is the addition of the group exactly on the addable pairs. */
  lemma AddRefinesIff(c: Curve, s: JPoint, q1: Point, t: JPoint, q2: Point)
    requires ValidCurve(c) && OnCurve(c, q1) && OnCurve(c, q2) && Represents(c, s, q1) && Represents(c, t, q2)
    ensures Represents(c, JAdd(c, s, t), Add(c, q1, q2)) <==> Addable(c, q1, q2)
  {
    hide Cong, Add, JAdd, OnCurve, ValidCurve, Represents, Addable;
    AddRefinesChordOnly(c, s, q1, t, q2);
    ChordOnlyIff(c, q1, q2);
    if Represents(c, JAdd(c, s, t), Add(c, q1, q2)) {
      RepresentsFinite(c, JAdd(c, s, t), Add(c, q1, q2));
      RepresentsFinite(c, JAdd(c, s, t), ChordOnlyAdd(c, q1, q2));
    }
  }

  // ---------------------------------------------------------------------------------------------
  // Back to affine coordinates

  lemma UnitScales(x: int, y: int, z: int, i: int)
    ensures (x * (z * z)) * (i * i) == x * ((z * i) * (z * i))
    ensures (y * (z * z * z)) * ((i * i) * i) == y * ((z * i) * (z * i) * (z * i))
  {
    assert (z * z) * (i * i) == (z * i) * (z * i);
    assert (z * z * z) * ((i * i) * i) == (z * i) * (z * i) * (z * i);
    assert (y * (z * z * z)) * ((i * i) * i) == y * ((z * z * z) * ((i * i) * i));
  }

  /** affineFromJacobian recovers the affine point, (0, 0) for infinity. */
  lemma AffineCorrect(c: Curve, s: JPoint, q: Point)
    requires ValidCurve(c) && OnCurve(c, q) && Represents(c, s, q)
    ensures AffineFromJacobian(c, s) == if q.Infinity? then (0, 0) else (q.x, q.y)
  {
    hide Cong, IsPrime, Cubic, MulMod, ModExp;
    if q.Affine? {
      var p := c.p;
      var z := s.z;
      ReducedSelf(z, p);
      ModInvCorrect(z, p);
      ExpIsInverse(z, p);
      var i := ModExp(z, p - 2, p);
      CongRefl(i, p);
      MulModCong(i, i, i, i, p);
      var ii := MulMod(i, i, p);
      MulModCong(s.x, q.x * (z * z), ii, i * i, p);
      MulModCong(ii, i * i, i, i, p);
      MulModCong(s.y, q.y * (z * z * z), MulMod(ii, i, p), (i * i) * i, p);
      UnitScales(q.x, q.y, z, i);
      CongMul(z * i, 1, z * i, 1, p);
      CongMul((z * i) * (z * i), 1, z * i, 1, p);
      Rescaled(MulMod(s.x, ii, p), q.x, (z * i) * (z * i), p);
      Rescaled(MulMod(s.y, MulMod(ii, i, p), p), q.y, (z * i) * (z * i) * (z * i), p);
    }
  }

  lemma ExpIsInverse(z: nat, p: nat)
    requires p >= 2
    ensures ModExp(z, p - 2, p) == ModInv(z, p, p - 2)
  {
  }

}
