/**
 * Point arithmetic of contracts/enclave-smart-account/P256VERIFY.yul: homogeneous projective points
 * whose coordinates are in Montgomery form; (x, y) is stored as (x z, y z, z), and z = 0 is infinity.
 */
module Projective {
  import opened Words
  import opened Congruence
  import opened NumberTheory
  import opened FieldArith
  import opened Montgomery
  import opened Curves

  /** The field constants of the Yul program: P, P', and 1, a, b in Montgomery form. */
  datatype Field = Field(p: nat, pPrime: nat, one: nat, a: nat, b: nat) {
    function Mul(x: nat, y: nat): (r: nat) { MontMul(x, y, p, pPrime) }
    function Plus(x: nat, y: nat): (r: nat) { MontAdd(x, y, p) }
    function Minus(x: nat, y: nat): (r: nat) { MontSub(x, y, p) }
  }

  datatype ProjPoint = ProjPoint(x: nat, y: nat, z: nat)

  function ProjectiveFromAffine(f: Field, x: nat, y: nat): (r: ProjPoint) {
    ProjPoint(x, y, f.one)
  }

  predicate AffineIsOnCurve(f: Field, x: nat, y: nat) {
    var left := f.Mul(y, y);
    var right := f.Plus(f.Mul(x, f.Mul(x, x)), f.Plus(f.Mul(f.a, x), f.b));
    left == right
  }

  function ProjectiveDouble(f: Field, s: ProjPoint): (r: ProjPoint) {
    var xSquared := f.Mul(s.x, s.x);
    var zSquared := f.Mul(s.z, s.z);
    var azSquared := f.Mul(f.a, zSquared);
    var t := f.Plus(f.Plus(xSquared, f.Plus(xSquared, xSquared)), azSquared);
    var yz := f.Mul(s.y, s.z);
    var u := f.Plus(yz, yz);
    var uxy := f.Mul(u, f.Mul(s.x, s.y));
    var v := f.Plus(uxy, uxy);
    var w := f.Minus(f.Mul(t, t), f.Plus(v, v));
    var uy := f.Mul(u, s.y);
    var uySquared := f.Mul(uy, uy);
    ProjPoint(f.Mul(u, w),
              f.Minus(f.Mul(t, f.Minus(v, w)), f.Plus(uySquared, uySquared)),
              f.Mul(u, f.Mul(u, u)))
  }

  function ProjectiveAdd(f: Field, s1: ProjPoint, s2: ProjPoint): (r: ProjPoint) {
    if s1.z == 0 then s2
    else if s2.z == 0 then s1
    else
      var t0 := f.Mul(s1.y, s2.z);
      var t1 := f.Mul(s2.y, s1.z);
      var t := f.Minus(t0, t1);
      var u0 := f.Mul(s1.x, s2.z);
      var u1 := f.Mul(s2.x, s1.z);
      var u := f.Minus(u0, u1);
      if t == 0 && u == 0 then ProjectiveDouble(f, s1)
      else
        var u2 := f.Mul(u, u);
        var u3 := f.Mul(u2, u);
        var v := f.Mul(s1.z, s2.z);
        var w := f.Minus(f.Mul(f.Mul(t, t), v), f.Mul(u2, f.Plus(u0, u1)));
        ProjPoint(f.Mul(u, w),
                  f.Minus(f.Mul(t, f.Minus(f.Mul(u0, u2), w)), f.Mul(t0, u3)),
                  f.Mul(u3, v))
  }

  // ---------------------------------------------------------------------------------------------
  // Which point a tuple stands for

  ghost predicate ValidField(f: Field, c: Curve) {
    && ValidCurve(c) && f.p == c.p && Companion(f.p, f.pPrime)
    && MForm(f.one, 1, f.p) && MForm(f.a, c.a, f.p) && MForm(f.b, c.b, f.p)
  }

  /** The residues of the three coordinates. */
  ghost predicate Forms(f: Field, s: ProjPoint, x: int, y: int, z: int) {
    MForm(s.x, x, f.p) && MForm(s.y, y, f.p) && MForm(s.z, z, f.p)
  }

  ghost predicate StoredAt(f: Field, s: ProjPoint, x: int, y: int, z: int) {
    !Cong(z, 0, f.p) && Forms(f, s, x * z, y * z, z)
  }

  ghost predicate Represents(f: Field, s: ProjPoint, q: Point) {
    && s.x < f.p && s.y < f.p && s.z < f.p
    && (q.Infinity? ==> s.z == 0)
    && (q.Affine? ==> exists z :: StoredAt(f, s, q.x, q.y, z))
  }

  lemma FormCong(m: nat, v: int, v': int, n: nat)
    requires MForm(m, v, n) && Cong(v, v', n)
    ensures MForm(m, v', n)
  {
    hide Cong;
    CongRefl(R, n);
    CongMul(v, v', R, R, n);
    CongTrans(m, v * R, v' * R, n);
  }

  /** Every reduced value is the Montgomery form of some residue. */
  lemma HasForm(m: nat, n: nat, nPrime: nat) returns (v: int)
    requires Companion(n, nPrime) && m < n
    ensures MForm(m, v, n)
  {
    var k :| n * nPrime - (-1) == k * R;
    hide Cong, Companion;
    v := m * k;
    Regroup(m, k, R);
    CompanionProduct(m, n, nPrime);
    CongBy(m, v * R, n, -(m * nPrime));
  }

  lemma CompanionProduct(m: int, n: int, nPrime: int)
    ensures m * (n * nPrime + 1) == m - (-(m * nPrime)) * n
  {
  }

  lemma StoredIsFinite(f: Field, s: ProjPoint, x: int, y: int, z: int)
    requires Companion(f.p, f.pPrime) && StoredAt(f, s, x, y, z)
    ensures s.z != 0
  {
    hide Cong, Companion, MForm;
    FormZero(s.z, z, f.p, f.pPrime);
  }

  // One lemma per machine operation, on residues

  lemma MulForm(f: Field, a: nat, u: int, b: nat, v: int)
    requires Companion(f.p, f.pPrime) && MForm(a, u, f.p) && MForm(b, v, f.p)
    ensures MForm(f.Mul(a, b), u * v, f.p)
  {
    hide Cong, Companion, MForm, MontMul;
    MulCorrect(a, u, b, v, f.p, f.pPrime);
  }

  lemma PlusForm(f: Field, a: nat, u: int, b: nat, v: int)
    requires MForm(a, u, f.p) && MForm(b, v, f.p)
    ensures MForm(f.Plus(a, b), u + v, f.p)
  {
    hide Cong, MForm, MontAdd;
    AddCorrect(a, u, b, v, f.p);
  }

  lemma MinusForm(f: Field, a: nat, u: int, b: nat, v: int)
    requires Companion(f.p, f.pPrime) && MForm(a, u, f.p) && MForm(b, v, f.p)
    ensures MForm(f.Minus(a, b), u - v, f.p)
  {
    hide Cong, MForm, MontSub;
    SubCorrect(a, u, b, v, f.p);
  }

  // ---------------------------------------------------------------------------------------------
  // Doubling

  /** The residues that projectiveDouble computes, for arbitrary residues of its input. */
  lemma DoubleForms(f: Field, s: ProjPoint, a: int, x: int, y: int, z: int, t: int, e: int, v: int, w: int)
    requires Companion(f.p, f.pPrime) && MForm(f.a, a, f.p) && Forms(f, s, x, y, z)
    requires t == x * x + (x * x + x * x) + a * (z * z) && e == y * z + y * z
    requires v == e * (x * y) + e * (x * y) && w == t * t - (v + v)
    ensures Forms(f, ProjectiveDouble(f, s),
                  e * w, t * (v - w) - ((e * y) * (e * y) + (e * y) * (e * y)), e * (e * e))
  {
    hide Cong, Companion, MForm, MontMul, MontAdd, MontSub, Field.Mul, Field.Plus, Field.Minus;
    MulForm(f, s.x, x, s.x, x);
    MulForm(f, s.z, z, s.z, z);
    var xx, zz := f.Mul(s.x, s.x), f.Mul(s.z, s.z);
    MulForm(f, f.a, a, zz, z * z);
    PlusForm(f, xx, x * x, xx, x * x);
    PlusForm(f, xx, x * x, f.Plus(xx, xx), x * x + x * x);
    PlusForm(f, f.Plus(xx, f.Plus(xx, xx)), x * x + (x * x + x * x), f.Mul(f.a, zz), a * (z * z));
    var t' := f.Plus(f.Plus(xx, f.Plus(xx, xx)), f.Mul(f.a, zz));
    MulForm(f, s.y, y, s.z, z);
    var yz := f.Mul(s.y, s.z);
    PlusForm(f, yz, y * z, yz, y * z);
    var u' := f.Plus(yz, yz);
    MulForm(f, s.x, x, s.y, y);
    MulForm(f, u', e, f.Mul(s.x, s.y), x * y);
    var uxy := f.Mul(u', f.Mul(s.x, s.y));
    PlusForm(f, uxy, e * (x * y), uxy, e * (x * y));
    var v' := f.Plus(uxy, uxy);
    MulForm(f, t', t, t', t);
    PlusForm(f, v', v, v', v);
    MinusForm(f, f.Mul(t', t'), t * t, f.Plus(v', v'), v + v);
    var w' := f.Minus(f.Mul(t', t'), f.Plus(v', v'));
    MulForm(f, u', e, w', w);
    MulForm(f, u', e, s.y, y);
    var uy := f.Mul(u', s.y);
    MulForm(f, uy, e * y, uy, e * y);
    var uy2 := f.Mul(uy, uy);
    PlusForm(f, uy2, (e * y) * (e * y), uy2, (e * y) * (e * y));
    MinusForm(f, v', v, w', w);
    MulForm(f, t', t, f.Minus(v', w'), v - w);
    MinusForm(f, f.Mul(t', f.Minus(v', w')), t * (v - w),
              f.Plus(uy2, uy2), (e * y) * (e * y) + (e * y) * (e * y));
    MulForm(f, u', e, u', e);
    MulForm(f, u', e, f.Mul(u', u'), e * e);
  }

  /** The tangent case in residues: the scale of the result is e^3 with e = 2 y k^2. */
  lemma DoubleAlgebra(p: nat, a: int, x: int, y: int, k: int, l: int, x3: int, y3: int,
                      t: int, e: int, v: int, w: int)
    requires Cong(l * (2 * y), 3 * x * x + a, p)
    requires Cong(x3, l * l - x - x, p) && Cong(y3, l * (x - x3) - y, p)
    requires t == (x * k) * (x * k) + ((x * k) * (x * k) + (x * k) * (x * k)) + a * (k * k)
    requires e == (y * k) * k + (y * k) * k
    requires v == e * ((x * k) * (y * k)) + e * ((x * k) * (y * k)) && w == t * t - (v + v)
    ensures Cong(e * w, x3 * (e * (e * e)), p)
    ensures Cong(t * (v - w) - ((e * (y * k)) * (e * (y * k)) + (e * (y * k)) * (e * (y * k))),
                 y3 * (e * (e * e)), p)
  {
    hide Cong;
    DoubleScales(a, x, y, k, l, t, e, v);
    CongRefl(k * k, p);
    CongSym(l * (2 * y), 3 * x * x + a, p);
    CongMul(3 * x * x + a, l * (2 * y), k * k, k * k, p);
    // t is l e
    CongMul(t, l * e, t, l * e, p);
    CongRefl(v + v, p);
    CongSub(t * t, (l * e) * (l * e), v + v, v + v, p);
    TangentIdentityX(l, x, e);
    Rescale(w, l * l - x - x, x3, e * e, p);
    CongRefl(e, p);
    CongMul(e, e, w, x3 * (e * e), p);
    Rotate(e, x3);
    TangentY(p, x, y, l, x3, y3, t, e, v, w);
  }

  lemma TangentY(p: nat, x: int, y: int, l: int, x3: int, y3: int, t: int, e: int, v: int, w: int)
    requires Cong(y3, l * (x - x3) - y, p)
    requires Cong(t, l * e, p) && v == x * (e * e) && Cong(w, x3 * (e * e), p)
    ensures Cong(t * (v - w) - y * (e * (e * e)), y3 * (e * (e * e)), p)
  {
    hide Cong;
    CongRefl(v, p);
    CongSub(v, v, w, x3 * (e * e), p);
    CongMul(t, l * e, v - w, x * (e * e) - x3 * (e * e), p);
    CongRefl(y * (e * (e * e)), p);
    CongSub(t * (v - w), (l * e) * (x * (e * e) - x3 * (e * e)), y * (e * (e * e)), y * (e * (e * e)), p);
    LineIdentityY(l, x, x3, y, e);
    assert e * e * e == e * (e * e);
    Rescale(t * (v - w) - y * (e * (e * e)), l * (x - x3) - y, y3, e * (e * e), p);
  }

  lemma DoubleScales(a: int, x: int, y: int, k: int, l: int, t: int, e: int, v: int)
    requires t == (x * k) * (x * k) + ((x * k) * (x * k) + (x * k) * (x * k)) + a * (k * k)
    requires e == (y * k) * k + (y * k) * k
    requires v == e * ((x * k) * (y * k)) + e * ((x * k) * (y * k))
    ensures t == (3 * x * x + a) * (k * k)
    ensures (l * (2 * y)) * (k * k) == l * e
    ensures v == x * (e * e)
    ensures (e * (y * k)) * (e * (y * k)) + (e * (y * k)) * (e * (y * k)) == y * (e * (e * e))
  {
    assert e == 2 * y * (k * k);
    assert e * ((x * k) * (y * k)) + e * ((x * k) * (y * k)) == x * (e * (2 * y * (k * k)));
    assert (e * (y * k)) * (e * (y * k)) + (e * (y * k)) * (e * (y * k)) == y * (e * e * (2 * y * (k * k)));
  }

  lemma Rotate(e: int, x: int)
    ensures e * (x * (e * e)) == x * (e * (e * e))
  {
  }

  lemma CubeNonZero(e: int, p: nat)
    requires IsPrime(p)
    ensures Cong(e * (e * e), 0, p) <==> Cong(e, 0, p)
  {
    hide Cong, IsPrime;
    EuclidLemma(e, e, p);
    EuclidLemma(e, e * e, p);
  }

  lemma DoubledScale(y: int, k: int, p: nat)
    requires IsPrime(p)
    ensures Cong((y * k) * k + (y * k) * k, 0, p) <==> Cong(2 * y, 0, p) || Cong(k, 0, p)
  {
    hide Cong, IsPrime;
    assert (y * k) * k + (y * k) * k == (2 * y) * (k * k);
    EuclidLemma(k, k, p);
    EuclidLemma(2 * y, k * k, p);
  }

  /** When the scale of the doubled point vanishes, the result is the encoding of infinity. */
  lemma DoubleVanishes(f: Field, c: Curve, s: ProjPoint, x: int, y: int, z: int)
    requires ValidField(f, c) && Forms(f, s, x, y, z) && Cong(y * z + y * z, 0, f.p)
    ensures Represents(f, ProjectiveDouble(f, s), Infinity)
  {
    hide Cong, IsPrime, Companion, ProjectiveDouble;
    var e := y * z + y * z;
    var t := x * x + (x * x + x * x) + c.a * (z * z);
    var v := e * (x * y) + e * (x * y);
    var w := t * t - (v + v);
    DoubleForms(f, s, c.a, x, y, z, t, e, v, w);
    CubeNonZero(e, f.p);
    hide MForm;
    FormZero(ProjectiveDouble(f, s).z, e * (e * e), f.p, f.pPrime);
  }

  lemma DoubleFinite(f: Field, c: Curve, s: ProjPoint, x: int, y: int, k: int, l: int, x3: int, y3: int)
    requires ValidField(f, c) && StoredAt(f, s, x, y, k) && !Cong(2 * y, 0, f.p)
    requires Cong(l * (2 * y), 3 * x * x + c.a, f.p)
    requires Cong(x3, l * l - x - x, f.p) && Cong(y3, l * (x - x3) - y, f.p)
    ensures var e := (y * k) * k + (y * k) * k; StoredAt(f, ProjectiveDouble(f, s), x3, y3, e * (e * e))
  {
    hide Cong, IsPrime, Companion, ProjectiveDouble, MForm;
    var p := f.p;
    var e := (y * k) * k + (y * k) * k;
    var t := (x * k) * (x * k) + ((x * k) * (x * k) + (x * k) * (x * k)) + c.a * (k * k);
    var v := e * ((x * k) * (y * k)) + e * ((x * k) * (y * k));
    var w := t * t - (v + v);
    DoubleForms(f, s, c.a, x * k, y * k, k, t, e, v, w);
    DoubleAlgebra(p, c.a, x, y, k, l, x3, y3, t, e, v, w);
    var r := ProjectiveDouble(f, s);
    FormCong(r.x, e * w, x3 * (e * (e * e)), p);
    FormCong(r.y, t * (v - w) - ((e * (y * k)) * (e * (y * k)) + (e * (y * k)) * (e * (y * k))),
             y3 * (e * (e * e)), p);
    CubeNonZero(e, p);
    DoubledScale(y, k, p);
  }

  /** projectiveDouble is the doubling of the group, for every choice of representatives. */
  lemma DoubleRefines(f: Field, c: Curve, s: ProjPoint, q: Point)
    requires ValidField(f, c) && OnCurve(c, q) && Represents(f, s, q)
    ensures Represents(f, ProjectiveDouble(f, s), Double(c, q))
  {
    hide Cong, IsPrime, Companion, ProjectiveDouble, Double, Add, Cubic;
    if q.Infinity? {
      DoubleInfinity(c);
      var x := HasForm(s.x, f.p, f.pPrime);
      var y := HasForm(s.y, f.p, f.pPrime);
      ZeroForm(f.p);
      CongRefl(0, f.p);
      DoubleVanishes(f, c, s, x, y, 0);
    } else {
      var k :| StoredAt(f, s, q.x, q.y, k);
      if Cong(2 * q.y, 0, f.p) {
        DoubleVertical(c, q);
        DoubledScale(q.y, k, f.p);
        DoubleVanishes(f, c, s, q.x * k, q.y * k, k);
      } else {
        var l := AddTangent(c, q);
        hide MForm;
        DoubleFinite(f, c, s, q.x, q.y, k, l, Double(c, q).x, Double(c, q).y);
        var e := (q.y * k) * k + (q.y * k) * k;
        StoredReduced(f, ProjectiveDouble(f, s), Double(c, q).x, Double(c, q).y, e * (e * e));
      }
    }
  }

  lemma ZeroForm(n: nat)
    requires n > 0
    ensures MForm(0, 0, n)
  {
    CongRefl(0, n);
  }

  lemma StoredReduced(f: Field, s: ProjPoint, x: int, y: int, z: int)
    requires StoredAt(f, s, x, y, z)
    ensures s.x < f.p && s.y < f.p && s.z < f.p
  {
  }

  // ---------------------------------------------------------------------------------------------
  // Addition

  /** The residues that the general case of projectiveAdd computes. */
  lemma AddForms(f: Field, s1: ProjPoint, s2: ProjPoint, x1: int, y1: int, z1: int, x2: int, y2: int, z2: int,
                 t: int, e: int, w: int)
    requires Companion(f.p, f.pPrime) && Forms(f, s1, x1, y1, z1) && Forms(f, s2, x2, y2, z2)
    requires s1.z != 0 && s2.z != 0
    requires t == y1 * z2 - y2 * z1 && e == x1 * z2 - x2 * z1
    requires w == (t * t) * (z1 * z2) - (e * e) * (x1 * z2 + x2 * z1)
    requires !Cong(t, 0, f.p) || !Cong(e, 0, f.p)
    ensures Forms(f, ProjectiveAdd(f, s1, s2),
                  e * w, t * ((x1 * z2) * (e * e) - w) - (y1 * z2) * ((e * e) * e), ((e * e) * e) * (z1 * z2))
  {
    hide Cong, Companion, MForm, MontMul, MontAdd, MontSub, Field.Mul, Field.Plus, Field.Minus, ProjectiveDouble;
    MulForm(f, s1.y, y1, s2.z, z2);
    MulForm(f, s2.y, y2, s1.z, z1);
    var t0, t1 := f.Mul(s1.y, s2.z), f.Mul(s2.y, s1.z);
    MinusForm(f, t0, y1 * z2, t1, y2 * z1);
    var t' := f.Minus(t0, t1);
    MulForm(f, s1.x, x1, s2.z, z2);
    MulForm(f, s2.x, x2, s1.z, z1);
    var u0, u1 := f.Mul(s1.x, s2.z), f.Mul(s2.x, s1.z);
    MinusForm(f, u0, x1 * z2, u1, x2 * z1);
    var u' := f.Minus(u0, u1);
    FormZero(t', t, f.p, f.pPrime);
    FormZero(u', e, f.p, f.pPrime);
    MulForm(f, u', e, u', e);
    var u2 := f.Mul(u', u');
    MulForm(f, u2, e * e, u', e);
    var u3 := f.Mul(u2, u');
    MulForm(f, s1.z, z1, s2.z, z2);
    var v' := f.Mul(s1.z, s2.z);
    MulForm(f, t', t, t', t);
    MulForm(f, f.Mul(t', t'), t * t, v', z1 * z2);
    PlusForm(f, u0, x1 * z2, u1, x2 * z1);
    MulForm(f, u2, e * e, f.Plus(u0, u1), x1 * z2 + x2 * z1);
    MinusForm(f, f.Mul(f.Mul(t', t'), v'), (t * t) * (z1 * z2),
              f.Mul(u2, f.Plus(u0, u1)), (e * e) * (x1 * z2 + x2 * z1));
    var w' := f.Minus(f.Mul(f.Mul(t', t'), v'), f.Mul(u2, f.Plus(u0, u1)));
    MulForm(f, u', e, w', w);
    MulForm(f, u0, x1 * z2, u2, e * e);
    MinusForm(f, f.Mul(u0, u2), (x1 * z2) * (e * e), w', w);
    MulForm(f, t', t, f.Minus(f.Mul(u0, u2), w'), (x1 * z2) * (e * e) - w);
    MulForm(f, t0, y1 * z2, u3, (e * e) * e);
    MinusForm(f, f.Mul(t', f.Minus(f.Mul(u0, u2), w')), t * ((x1 * z2) * (e * e) - w),
              f.Mul(t0, u3), (y1 * z2) * ((e * e) * e));
    MulForm(f, u3, (e * e) * e, v', z1 * z2);
  }

  lemma AddScales(x1: int, y1: int, k1: int, x2: int, y2: int, k2: int, l: int, e: int, k: int)
    requires k == k1 * k2 && e == (x1 * k1) * k2 - (x2 * k2) * k1
    ensures (x1 * k1) * k2 == x1 * k && (x2 * k2) * k1 == x2 * k
    ensures (y1 * k1) * k2 == y1 * k && (y2 * k2) * k1 == y2 * k
    ensures e == (x1 - x2) * k
    ensures (y1 * k1) * k2 - (y2 * k2) * k1 == (y1 - y2) * k
    ensures (l * (x1 - x2)) * k == l * e
  {
    assert (x1 * k1) * k2 == x1 * (k1 * k2);
    assert (x2 * k2) * k1 == x2 * (k1 * k2);
    assert (y1 * k1) * k2 == y1 * (k1 * k2);
    assert (y2 * k2) * k1 == y2 * (k1 * k2);
    assert (l * (x1 - x2)) * k == l * ((x1 - x2) * k);
  }

  /** The chord case in residues: the scale of the result is e^3 k with e = (x1 - x2) k, k = k1 k2. */
  lemma AddAlgebra(p: nat, x1: int, y1: int, k1: int, x2: int, y2: int, k2: int, l: int, x3: int, y3: int,
                   t: int, e: int, w: int, k: int)
    requires Cong(l * (x2 - x1), y2 - y1, p)
    requires Cong(x3, l * l - x1 - x2, p) && Cong(y3, l * (x1 - x3) - y1, p)
    requires k == k1 * k2
    requires t == (y1 * k1) * k2 - (y2 * k2) * k1 && e == (x1 * k1) * k2 - (x2 * k2) * k1
    requires w == (t * t) * k - (e * e) * ((x1 * k1) * k2 + (x2 * k2) * k1)
    ensures Cong(e * w, x3 * (((e * e) * e) * k), p)
    ensures Cong(t * (((x1 * k1) * k2) * (e * e) - w) - ((y1 * k1) * k2) * ((e * e) * e),
                 y3 * (((e * e) * e) * k), p)
  {
    hide Cong;
    AddScales(x1, y1, k1, x2, y2, k2, l, e, k);
    CongRefl(0, p);
    CongSub(0, 0, l * (x2 - x1), y2 - y1, p);
    assert 0 - l * (x2 - x1) == l * (x1 - x2);
    CongSym(l * (x1 - x2), y1 - y2, p);
    CongRefl(k, p);
    CongMul(y1 - y2, l * (x1 - x2), k, k, p);
    // t is l e
    CongMul(t, l * e, t, l * e, p);
    CongMul(t * t, (l * e) * (l * e), k, k, p);
    var sum := (e * e) * (x1 * k + x2 * k);
    CongRefl(sum, p);
    CongSub((t * t) * k, ((l * e) * (l * e)) * k, sum, sum, p);
    ChordX(l, x1, x2, e, k);
    Rescale(w, l * l - x1 - x2, x3, (e * e) * k, p);
    CongRefl(e, p);
    CongMul(e, e, w, x3 * ((e * e) * k), p);
    ChordRotate(e, x3, k);
    var ue := (x1 * k) * (e * e);
    CongRefl(ue, p);
    CongSub(ue, ue, w, x3 * ((e * e) * k), p);
    CongMul(t, l * e, ue - w, ue - x3 * ((e * e) * k), p);
    var last := (y1 * k) * ((e * e) * e);
    CongRefl(last, p);
    CongSub(t * (ue - w), (l * e) * (ue - x3 * ((e * e) * k)), last, last, p);
    ChordY(l, x1, x3, y1, e, k);
    Rescale(t * (ue - w) - last, l * (x1 - x3) - y1, y3, ((e * e) * e) * k, p);
  }

  lemma ChordX(l: int, x1: int, x2: int, e: int, k: int)
    ensures ((l * e) * (l * e)) * k - (e * e) * (x1 * k + x2 * k) == (l * l - x1 - x2) * ((e * e) * k)
  {
  }

  lemma ChordRotate(e: int, x: int, k: int)
    ensures e * (x * ((e * e) * k)) == x * (((e * e) * e) * k)
  {
  }

  lemma ChordY(l: int, x1: int, x3: int, y1: int, e: int, k: int)
    ensures (l * e) * ((x1 * k) * (e * e) - x3 * ((e * e) * k)) - (y1 * k) * ((e * e) * e)
         == (l * (x1 - x3) - y1) * (((e * e) * e) * k)
  {
    assert (l * e) * ((x1 * k) * (e * e)) == (l * x1) * (((e * e) * e) * k);
    assert (l * e) * (x3 * ((e * e) * k)) == (l * x3) * (((e * e) * e) * k);
    assert (y1 * k) * ((e * e) * e) == y1 * (((e * e) * e) * k);
  }

  lemma AddScaleNonZero(p: nat, d: int, k1: int, k2: int, e: int)
    requires IsPrime(p) && !Cong(k1, 0, p) && !Cong(k2, 0, p) && e == d * (k1 * k2)
    ensures Cong(e, 0, p) <==> Cong(d, 0, p)
    ensures Cong(((e * e) * e) * (k1 * k2), 0, p) <==> Cong(d, 0, p)
  {
    hide Cong, IsPrime;
    EuclidLemma(k1, k2, p);
    EuclidLemma(d, k1 * k2, p);
    EuclidLemma(e, e, p);
    EuclidLemma(e * e, e, p);
    EuclidLemma((e * e) * e, k1 * k2, p);
  }

  lemma AddFinite(f: Field, c: Curve, s1: ProjPoint, s2: ProjPoint, x1: int, y1: int, k1: int,
                  x2: int, y2: int, k2: int, l: int, x3: int, y3: int)
    requires ValidField(f, c) && StoredAt(f, s1, x1, y1, k1) && StoredAt(f, s2, x2, y2, k2)
    requires !Cong(x1 - x2, 0, f.p) && Cong(l * (x2 - x1), y2 - y1, f.p)
    requires Cong(x3, l * l - x1 - x2, f.p) && Cong(y3, l * (x1 - x3) - y1, f.p)
    ensures exists z :: StoredAt(f, ProjectiveAdd(f, s1, s2), x3, y3, z)
  {
    hide Cong, IsPrime, Companion, ProjectiveAdd, MForm;
    var p := f.p;
    StoredIsFinite(f, s1, x1, y1, k1);
    StoredIsFinite(f, s2, x2, y2, k2);
    var k := k1 * k2;
    var t := (y1 * k1) * k2 - (y2 * k2) * k1;
    var e := (x1 * k1) * k2 - (x2 * k2) * k1;
    var w := (t * t) * k - (e * e) * ((x1 * k1) * k2 + (x2 * k2) * k1);
    AddScales(x1, y1, k1, x2, y2, k2, l, e, k);
    AddScaleNonZero(p, x1 - x2, k1, k2, e);
    AddForms(f, s1, s2, x1 * k1, y1 * k1, k1, x2 * k2, y2 * k2, k2, t, e, w);
    AddAlgebra(p, x1, y1, k1, x2, y2, k2, l, x3, y3, t, e, w, k);
    var r := ProjectiveAdd(f, s1, s2);
    var z := ((e * e) * e) * k;
    FormCong(r.x, e * w, x3 * z, p);
    FormCong(r.y, t * (((x1 * k1) * k2) * (e * e) - w) - ((y1 * k1) * k2) * ((e * e) * e), y3 * z, p);
    assert StoredAt(f, r, x3, y3, z);
  }

  /** Opposite points: the scale of the sum is zero. */
  lemma AddOpposite(f: Field, c: Curve, s1: ProjPoint, s2: ProjPoint, x: int, y1: int, k1: int, y2: int, k2: int)
    requires ValidField(f, c) && StoredAt(f, s1, x, y1, k1) && StoredAt(f, s2, x, y2, k2)
    requires !Cong(y1 - y2, 0, f.p)
    ensures Represents(f, ProjectiveAdd(f, s1, s2), Infinity)
  {
    hide Cong, IsPrime, Companion, ProjectiveAdd;
    var p := f.p;
    StoredIsFinite(f, s1, x, y1, k1);
    StoredIsFinite(f, s2, x, y2, k2);
    var k := k1 * k2;
    var t := (y1 * k1) * k2 - (y2 * k2) * k1;
    var e := (x * k1) * k2 - (x * k2) * k1;
    var w := (t * t) * k - (e * e) * ((x * k1) * k2 + (x * k2) * k1);
    AddScales(x, y1, k1, x, y2, k2, 0, e, k);
    AddScaleNonZero(p, y1 - y2, k1, k2, t);
    CongRefl(0, p);
    AddScaleNonZero(p, 0, k1, k2, e);
    AddForms(f, s1, s2, x * k1, y1 * k1, k1, x * k2, y2 * k2, k2, t, e, w);
    FormZero(ProjectiveAdd(f, s1, s2).z, ((e * e) * e) * k, p, f.pPrime);
  }

  /** Equal points are recognised whatever their scales, and doubled. */
  lemma AddEqual(f: Field, c: Curve, s1: ProjPoint, s2: ProjPoint, x: int, y: int, k1: int, k2: int)
    requires ValidField(f, c) && StoredAt(f, s1, x, y, k1) && StoredAt(f, s2, x, y, k2)
    ensures ProjectiveAdd(f, s1, s2) == ProjectiveDouble(f, s1)
  {
    hide Cong, IsPrime, Companion, MForm, MontMul, MontAdd, MontSub, Field.Mul, Field.Plus, Field.Minus,
      ProjectiveDouble;
    var p := f.p;
    StoredIsFinite(f, s1, x, y, k1);
    StoredIsFinite(f, s2, x, y, k2);
    var t := (y * k1) * k2 - (y * k2) * k1;
    var e := (x * k1) * k2 - (x * k2) * k1;
    AddScales(x, y, k1, x, y, k2, 0, e, k1 * k2);
    MulForm(f, s1.y, y * k1, s2.z, k2);
    MulForm(f, s2.y, y * k2, s1.z, k1);
    MinusForm(f, f.Mul(s1.y, s2.z), (y * k1) * k2, f.Mul(s2.y, s1.z), (y * k2) * k1);
    MulForm(f, s1.x, x * k1, s2.z, k2);
    MulForm(f, s2.x, x * k2, s1.z, k1);
    MinusForm(f, f.Mul(s1.x, s2.z), (x * k1) * k2, f.Mul(s2.x, s1.z), (x * k2) * k1);
    CongRefl(0, p);
    FormZero(f.Minus(f.Mul(s1.y, s2.z), f.Mul(s2.y, s1.z)), t, p, f.pPrime);
    FormZero(f.Minus(f.Mul(s1.x, s2.z), f.Mul(s2.x, s1.z)), e, p, f.pPrime);
  }

  /** projectiveAdd is the addition of the group, infinity, doubling and cancellation included. */
  lemma AddRefines(f: Field, c: Curve, s1: ProjPoint, q1: Point, s2: ProjPoint, q2: Point)
    requires ValidField(f, c) && OnCurve(c, q1) && OnCurve(c, q2)
    requires Represents(f, s1, q1) && Represents(f, s2, q2)
    ensures Represents(f, ProjectiveAdd(f, s1, s2), Add(c, q1, q2))
  {
    hide Cong, IsPrime, Companion, Add, Cubic, ProjectiveDouble, MForm, Field.Mul, Field.Plus, Field.Minus;
    if q1.Infinity? {
      AddInfinity(c, q2);
    } else {
      var k1 :| StoredAt(f, s1, q1.x, q1.y, k1);
      StoredIsFinite(f, s1, q1.x, q1.y, k1);
      if q2.Infinity? {
        AddInfinity(c, q1);
      } else {
        var k2 :| StoredAt(f, s2, q2.x, q2.y, k2);
        hide ProjectiveAdd;
        if q1.x != q2.x {
          DistinctResidues(q1.x, q2.x, f.p);
          var l := AddChord(c, q1, q2);
          var r := Add(c, q1, q2);
          AddFinite(f, c, s1, s2, q1.x, q1.y, k1, q2.x, q2.y, k2, l, r.x, r.y);
          var z :| StoredAt(f, ProjectiveAdd(f, s1, s2), r.x, r.y, z);
          StoredReduced(f, ProjectiveAdd(f, s1, s2), r.x, r.y, z);
        } else {
          AddSameX(c, q1, q2);
          DistinctResidues(q1.y, q2.y, f.p);
          if q1.y == q2.y {
            AddEqual(f, c, s1, s2, q1.x, q1.y, k1, k2);
            DoubleRefines(f, c, s1, q1);
          } else {
            AddOpposite(f, c, s1, s2, q1.x, q1.y, k1, q2.y, k2);
          }
        }
      }
    }
  }

  // ---------------------------------------------------------------------------------------------
  // Affine points in Montgomery form

  /** projectiveFromAffine represents the point whose coordinates were brought into Montgomery form. */
  lemma FromAffineRepresents(f: Field, c: Curve, mx: nat, my: nat, q: Point)
    requires ValidField(f, c) && q.Affine? && MForm(mx, q.x, f.p) && MForm(my, q.y, f.p)
    ensures Represents(f, ProjectiveFromAffine(f, mx, my), q)
  {
    hide Cong, Companion;
    NotMultiple(1, f.p);
    assert q.x * 1 == q.x && q.y * 1 == q.y;
    assert StoredAt(f, ProjectiveFromAffine(f, mx, my), q.x, q.y, 1);
  }

  /** affinePointIsOnCurve decides the curve equation on Montgomery forms. */
  lemma OnCurveIff(f: Field, c: Curve, mx: nat, my: nat, x: nat, y: nat)
    requires ValidField(f, c) && x < c.p && y < c.p && MForm(mx, x, f.p) && MForm(my, y, f.p)
    ensures AffineIsOnCurve(f, mx, my) <==> OnCurve(c, Affine(x, y))
  {
    hide Cong, IsPrime, Companion, MForm, Field.Mul, Field.Plus, Field.Minus;
    MulForm(f, my, y, my, y);
    MulForm(f, mx, x, mx, x);
    MulForm(f, mx, x, f.Mul(mx, mx), x * x);
    MulForm(f, f.a, c.a, mx, x);
    PlusForm(f, f.Mul(f.a, mx), c.a * x, f.b, c.b);
    PlusForm(f, f.Mul(mx, f.Mul(mx, mx)), x * (x * x), f.Plus(f.Mul(f.a, mx), f.b), c.a * x + c.b);
    var left := f.Mul(my, my);
    var right := f.Plus(f.Mul(mx, f.Mul(mx, mx)), f.Plus(f.Mul(f.a, mx), f.b));
    assert x * (x * x) + (c.a * x + c.b) == Cubic(c, x);
    SameForm(left, y * y, right, Cubic(c, x), f.p, f.pPrime);
  }

  lemma SameForm(m: nat, v: int, m': nat, v': int, n: nat, nPrime: nat)
    requires Companion(n, nPrime) && MForm(m, v, n) && MForm(m', v', n)
    ensures m == m' <==> Cong(v, v', n)
  {
    hide Cong, Companion;
    if m == m' {
      CongSym(m, v * R, n);
      CongTrans(v * R, m, v' * R, n);
      CancelR(v, v', n, nPrime);
    }
    if Cong(v, v', n) {
      FormCong(m, v, v', n);
      CongSym(m', v' * R, n);
      CongTrans(m, v' * R, m', n);
      CongUnique(m, m', n);
    }
  }

}
