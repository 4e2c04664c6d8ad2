/**
 * verify and verifyWithPrecompute of contracts/enclave-smart-account/SECP256R1.sol against the verifying
 * operation of section 4.1.4 of SEC 1 v2.0.
 */
module JacobianVerifier {
  import opened Words
  import opened Congruence
  import opened NumberTheory
  import opened FieldArith
  import opened Curves
  import opened Ladders
  import opened Ecdsa
  import opened Jacobian
  import opened Window

  /** A scalar of the code: value times the Fermat inverse of s, which is 0 for s = 0. */
  function CodeScalar(d: Domain, value: nat, s: nat): (u: nat)
    requires d.n >= 2
  {
    MulMod(value, ModExp(s, d.n - 2, d.n), d.n)
  }

  /** What the code decides for a key on the curve. */
  ghost predicate CodeAccepts(d: Domain, e: nat, r: nat, s: nat, q: Point)
    requires ValidDomain(d) && OnCurve(d.c, q)
  {
    && r < d.n && s < d.n
    && XOrZero(CodeLadder(d.c, d.G(), q, CodeScalar(d, e, s), CodeScalar(d, r, s))) == r
  }

  lemma Bounds(d: Domain)
    requires ValidDomain(d)
    ensures ValidCurve(d.c) && OnCurve(d.c, d.G()) && IsPrime(d.n) && 2 < d.n < R
  {
  }

  lemma ScalarBelow(d: Domain, value: nat, s: nat)
    requires d.n >= 2
    ensures CodeScalar(d, value, s) < d.n
  {
    hide ModExp;
    MulModBound(value, ModExp(s, d.n - 2, d.n), d.n);
  }

  lemma CoordinateX(q: Point)
    ensures Coordinates(q).0 == XOrZero(q)
  {
  }

  /** verifyWithPrecompute: on the table of a key it decides CodeAccepts, for all words. */
  method VerifyWithPrecompute(d: Domain, ghost q: Point, points: array<JPoint>, r: nat, s: nat, e: nat)
    returns (ok: bool)
    requires ValidDomain(d) && OnCurve(d.c, q) && q.Affine? && points.Length == 16
    ensures r >= d.n || s >= d.n ==> !ok
    ensures TableOf(d.c, d.G(), q, points[..]) ==> ok == CodeAccepts(d, e, r, s, q)
  {
    Bounds(d);
    hide ValidDomain, ValidCurve, OnCurve, IsPrime, TableOf, CodeLadder, Associative, TableSafe, WindowSafe, Add,
      Multiple, ModExp, MulMod, Coordinates, XOrZero;
    if r >= d.n || s >= d.n {
      return false;
    }
    var w := ModExp(s, d.n - 2, d.n);
    var u1 := MulMod(e, w, d.n);
    var u2 := MulMod(r, w, d.n);
    ScalarBelow(d, e, s);
    ScalarBelow(d, r, s);
    var x, y := ShamirMultJacobian(d.c, d.G(), q, points, u1, u2);
    CoordinateX(CodeLadder(d.c, d.G(), q, u1, u2));
    return x == r;
  }

  /** verify; the key is not tested, and nothing is said for a key off the curve that passes the range tests. */
  method Verify(d: Domain, keyX: nat, keyY: nat, r: nat, s: nat, e: nat) returns (ok: bool)
    requires ValidDomain(d)
    ensures r >= d.n || s >= d.n ==> !ok
    ensures OnCurve(d.c, Affine(keyX, keyY)) ==> ok == CodeAccepts(d, e, r, s, Affine(keyX, keyY))
  {
    Bounds(d);
    hide ValidDomain, ValidCurve, OnCurve, IsPrime, TableOf, CodeAccepts, Cell;
    if r >= d.n || s >= d.n {
      RangeRejects(d, e, r, s, keyX, keyY);
      return false;
    }
    var points := PreComputeJacobianPoints(d.c, d.gx, d.gy, keyX, keyY);
    ghost var key := Affine(keyX, keyY);
    ghost var q := if OnCurve(d.c, key) then key else d.G();
    TableFilled(d, keyX, keyY, points[..]);
    ok := VerifyWithPrecompute(d, q, points, r, s, e);
  }

  lemma RangeRejects(d: Domain, e: nat, r: nat, s: nat, keyX: nat, keyY: nat)
    requires ValidDomain(d) && (r >= d.n || s >= d.n)
    ensures OnCurve(d.c, Affine(keyX, keyY)) ==> !CodeAccepts(d, e, r, s, Affine(keyX, keyY))
  {
  }

  lemma TableFilled(d: Domain, keyX: nat, keyY: nat, points: seq<JPoint>)
    requires |points| == 16
    requires forall k :: 0 <= k < 16 ==> points[k] == Cell(d.c, d.gx, d.gy, keyX, keyY, k / 4, k % 4)
    ensures TableOf(d.c, d.G(), Affine(keyX, keyY), points)
  {
    hide Cell;
  }

  // ---------------------------------------------------------------------------------------------
  // Against SEC 1

  /** For s in range the code's scalars are those of the reference. */
  lemma CodeScalarIs(d: Domain, value: nat, s: nat)
    requires ValidDomain(d) && 0 < s < d.n
    ensures d.n >= 2 && CodeScalar(d, value, s) == Scalar(d, value, s)
  {
    Bounds(d);
    hide Cong, IsPrime, ModExp, OnCurve, ValidCurve;
    NotMultiple(s, d.n);
    ModInvCorrect(s, d.n);
    ExpIsInverse(s, d.n);
    ScalarBy(d, value, s, ModInv(s, d.n, d.n - 2));
  }

  /** For s = 0 both scalars are 0. */
  lemma CodeScalarZero(d: Domain, value: nat)
    requires ValidDomain(d)
    ensures d.n >= 2 && CodeScalar(d, value, 0) == 0
  {
    Bounds(d);
    hide Cong, IsPrime, ModExp, MulMod, OnCurve, ValidCurve;
    CongRefl(0, d.n);
    ModInvCorrect(0, d.n);
    ExpIsInverse(0, d.n);
    TimesZero(value, d.n);
  }

  /**
   * Where the decision can differ from SEC 1: r = 0 with a sum whose x is taken as 0, and an x of at least n,
   * which SEC 1 reduces and the code does not.
   */
  ghost predicate Differs(d: Domain, r: nat, s: nat, sum: Point)
    requires d.n > 0
  {
    && r < d.n && s < d.n
    && (if r == 0 then XOrZero(sum) == 0 else s > 0 && sum.Affine? && sum.x >= d.n && sum.x % d.n == r)
  }

  /** On a safe run with a safe key the code decides as SEC 1 if and only if the sum is not one where they differ. */
  lemma AgreesIff(d: Domain, e: nat, r: nat, s: nat, x: nat, y: nat)
    requires ValidDomain(d) && Associative(d.c) && OnCurve(d.c, Affine(x, y))
    requires TableSafe(d.c, d.G(), Affine(x, y))
    requires WindowSafe(d.c, d.G(), Affine(x, y), CodeScalar(d, e, s), CodeScalar(d, r, s))
    ensures var sum := Add(d.c, Multiple(d.c, CodeScalar(d, e, s), d.G()),
                           Multiple(d.c, CodeScalar(d, r, s), Affine(x, y)));
      (CodeAccepts(d, e, r, s, Affine(x, y)) <==> Accepts(d, e, r, s, x, y)) <==> !Differs(d, r, s, sum)
  {
    Bounds(d);
    hide ValidDomain, ValidCurve, OnCurve, IsPrime, Associative, TableSafe, WindowSafe, Add, Multiple, CodeLadder,
      CodeScalar, Scalar;
    var q := Affine(x, y);
    var u1, u2 := CodeScalar(d, e, s), CodeScalar(d, r, s);
    SafeRunIsLinear(d.c, d.G(), q, u1, u2);
    var sum := Add(d.c, Multiple(d.c, u1, d.G()), Multiple(d.c, u2, q));
    if s == 0 {
      CodeScalarZero(d, e);
      CodeScalarZero(d, r);
      NoSum(d, q);
    } else if s < d.n {
      CodeScalarIs(d, e, s);
      CodeScalarIs(d, r, s);
      if r < d.n && sum.Affine? && sum.x < d.n {
        DivModUnique(sum.x, 0, sum.x, d.n);
      }
    }
  }

  lemma NoSum(d: Domain, q: Point)
    requires ValidDomain(d) && OnCurve(d.c, q)
    ensures Add(d.c, Multiple(d.c, 0, d.G()), Multiple(d.c, 0, q)) == Infinity
  {
    Bounds(d);
    hide ValidDomain, ValidCurve, OnCurve, IsPrime, Add;
    SmallMultiples(d.c, d.G());
    SmallMultiples(d.c, q);
    AddInfinity(d.c, Infinity);
  }

  /** For r and s in the range of SEC 1 and r at least p - n the code decides as SEC 1 on every safe run. */
  lemma AgreesInRange(d: Domain, e: nat, r: nat, s: nat, x: nat, y: nat)
    requires ValidDomain(d) && Associative(d.c) && WellFormed(d, r, s, x, y)
    requires TableSafe(d.c, d.G(), Affine(x, y))
    requires WindowSafe(d.c, d.G(), Affine(x, y), CodeScalar(d, e, s), CodeScalar(d, r, s))
    requires d.c.p <= r + d.n
    ensures CodeAccepts(d, e, r, s, Affine(x, y)) <==> Accepts(d, e, r, s, x, y)
  {
    Bounds(d);
    AgreesIff(d, e, r, s, x, y);
    var sum := Add(d.c, Multiple(d.c, CodeScalar(d, e, s), d.G()), Multiple(d.c, CodeScalar(d, r, s), Affine(x, y)));
    hide CodeAccepts, Accepts, Add, Multiple, CodeScalar, Associative, TableSafe, WindowSafe;
    if sum.Affine? && d.n <= sum.x {
      InField(d.c, sum);
      DivModUnique(sum.x, 1, sum.x - d.n, d.n);
    }
  }

  lemma InField(c: Curve, q: Point)
    requires OnCurve(c, q) && q.Affine?
    ensures q.x < c.p
  {
  }

  /** With s = 0, outside the range of SEC 1, the code compares r with 0 whatever the hash and the key. */
  lemma ZeroInverse(d: Domain, e: nat, r: nat, x: nat, y: nat)
    requires ValidDomain(d) && OnCurve(d.c, Affine(x, y))
    ensures CodeAccepts(d, e, r, 0, Affine(x, y)) <==> r == 0
    ensures !Accepts(d, e, r, 0, x, y)
  {
    Bounds(d);
    hide ValidDomain, ValidCurve, OnCurve, IsPrime, CodeScalar;
    CodeScalarZero(d, e);
    CodeScalarZero(d, r);
  }

}
