/**
 * The verifying operation of section 4.1.4 of SEC 1 v2.0, as the reference for both verifiers.
 */
module Ecdsa {
  import opened Words
  import opened Congruence
  import opened NumberTheory
  import opened Curves
  import opened Ladders

  /** Domain parameters: the curve, the base point and its order. */
  datatype Domain = Domain(c: Curve, gx: nat, gy: nat, n: nat) {
    function G(): (r: Point) { Affine(gx, gy) }
  }

  ghost predicate ValidDomain(d: Domain) {
    ValidCurve(d.c) && OnCurve(d.c, d.G()) && IsPrime(d.n) && d.n % 2 == 1 && d.n < R
  }

  function XOrZero(q: Point): (r: nat) {
    if q.Infinity? then 0 else q.x
  }

  /** r and s are scalars and (x, y) is a finite point of the curve. */
  ghost predicate WellFormed(d: Domain, r: nat, s: nat, x: nat, y: nat) {
    0 < r < d.n && 0 < s < d.n && OnCurve(d.c, Affine(x, y))
  }

  /** The scalar that multiplies a value of the signature: value / s modulo the order. */
  ghost function Scalar(d: Domain, value: nat, s: nat): (u: nat)
    requires IsPrime(d.n) && 0 < s < d.n
    ensures u < d.n
  {
    NotMultiple(s, d.n);
    (value * Inverse(s, d.n)) % d.n
  }

  /** The signature (r, s) of the hash is accepted under the key (x, y). */
  ghost predicate Accepts(d: Domain, hash: nat, r: nat, s: nat, x: nat, y: nat)
    requires ValidDomain(d)
  {
    && WellFormed(d, r, s, x, y)
    && var sum := Add(d.c, Multiple(d.c, Scalar(d, hash, s), d.G()),
                      Multiple(d.c, Scalar(d, r, s), Affine(x, y)));
       sum.Affine? && sum.x % d.n == r
  }

  /** The same with the ladder in place of the linear combination. */
  ghost predicate LadderAccepts(d: Domain, hash: nat, r: nat, s: nat, x: nat, y: nat)
    requires ValidDomain(d)
  {
    && WellFormed(d, r, s, x, y)
    && var sum := Ladder(d.c, d.G(), Affine(x, y), Scalar(d, hash, s), Scalar(d, r, s));
       sum.Affine? && sum.x % d.n == r
  }

  lemma LadderAcceptsIff(d: Domain, hash: nat, r: nat, s: nat, x: nat, y: nat)
    requires ValidDomain(d) && Associative(d.c)
    ensures LadderAccepts(d, hash, r, s, x, y) <==> Accepts(d, hash, r, s, x, y)
  {
    if WellFormed(d, r, s, x, y) {
      hide Add, Ladder, Multiple, OnCurve, Associative, IsPrime;
      LadderIsLinear(d.c, d.G(), Affine(x, y), Scalar(d, hash, s), Scalar(d, r, s));
    }
  }

  /** Any inverse of s modulo the order yields the scalar. */
  lemma ScalarBy(d: Domain, value: nat, s: nat, w: nat)
    requires IsPrime(d.n) && 0 < s < d.n && w < d.n && Cong(s * w, 1, d.n)
    ensures Scalar(d, value, s) == (value * w) % d.n
  {
    hide Cong, IsPrime;
    NotMultiple(s, d.n);
    InverseUnique(s, w, d.n);
  }

  /** The second scalar of a well-formed signature is never zero. */
  lemma SecondScalarNonZero(d: Domain, r: nat, s: nat)
    requires IsPrime(d.n) && 0 < r < d.n && 0 < s < d.n
    ensures Scalar(d, r, s) != 0
  {
    hide Cong, IsPrime;
    NotMultiple(r, d.n);
    NotMultiple(s, d.n);
    var w := Inverse(s, d.n);
    if Cong(w, 0, d.n) {
      CongRefl(s, d.n);
      CongMul(s, s, w, 0, d.n);
      CongSym(s * w, 1, d.n);
      CongTrans(1, s * w, s * 0, d.n);
      NotMultiple(1, d.n);
    }
    EuclidLemma(r, w, d.n);
    CongSameMod(r * w, 0, d.n);
  }

}
