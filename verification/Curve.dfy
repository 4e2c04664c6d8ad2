/**
 * Short Weierstrass curves y^2 = x^3 + ax + b over a prime field, with the chord-and-tangent rule of
 * section 2.2.1 of SEC 1 v2.0. This is the reference that every coordinate system of the repository
 * is compared with.
 */
module Curves {
  import opened Words
  import opened Congruence
  import opened NumberTheory

  datatype Curve = Curve(p: nat, a: nat, b: nat)

  datatype Point = Infinity | Affine(x: nat, y: nat)

  /** An odd prime field that fits a word; b is non-zero, so (0, 0) is free to encode infinity. */
  ghost predicate ValidCurve(c: Curve) {
    IsPrime(c.p) && c.p % 2 == 1 && c.p < R && c.a < c.p && 0 < c.b < c.p
  }

  function Cubic(c: Curve, x: int): (r: int) {
    x * x * x + c.a * x + c.b
  }

  ghost predicate OnCurve(c: Curve, q: Point) {
    q.Infinity? || (q.x < c.p && q.y < c.p && Cong(q.y * q.y, Cubic(c, q.x), c.p))
  }

  // ---------------------------------------------------------------------------------------------
  // The group rule

  lemma DistinctResidues(x: int, y: int, p: int)
    requires 0 <= x < p && 0 <= y < p
    ensures Cong(x - y, 0, p) <==> x == y
  {
    if Cong(x - y, 0, p) {
      CongRefl(y, p);
      CongAdd(x - y, 0, y, y, p);
      CongUnique(x, y, p);
    } else if x == y {
      CongRefl(0, p);
    }
  }

  /** Points with the same x are equal or opposite. */
  lemma SameX(c: Curve, x: nat, y: nat, y': nat)
    requires ValidCurve(c) && OnCurve(c, Affine(x, y)) && OnCurve(c, Affine(x, y'))
    ensures y == y' || Cong(y + y', 0, c.p)
    ensures !Cong(y + y', 0, c.p) ==> y == y' && !Cong(2 * y, 0, c.p)
  {
    hide Cong, IsPrime, Cubic;
    var p := c.p;
    CongSub(y * y, Cubic(c, x), y' * y', Cubic(c, x), p);
    assert y * y - y' * y' == (y - y') * (y + y');
    EuclidLemma(y - y', y + y', p);
    DistinctResidues(y, y', p);
  }

  ghost function ChordSlope(c: Curve, x1: nat, y1: nat, x2: nat, y2: nat): (r: int)
    requires IsPrime(c.p) && !Cong(x2 - x1, 0, c.p)
  {
    (y2 - y1) * Inverse(x2 - x1, c.p)
  }

  ghost function TangentSlope(c: Curve, x: nat, y: nat): (r: int)
    requires IsPrime(c.p) && !Cong(2 * y, 0, c.p)
  {
    (3 * x * x + c.a) * Inverse(2 * y, c.p)
  }

  /** The reflected third intersection of the line of slope l through the abscissae x1 and x2. */
  function Third(c: Curve, x1: nat, y1: nat, x2: nat, l: int): (r: Point)
    requires c.p > 0
    ensures r.Affine? && r.x < c.p && r.y < c.p
  {
    var x3 := (l * l - x1 - x2) % c.p;
    Affine(x3, (l * (x1 - x3) - y1) % c.p)
  }

  ghost function Add(c: Curve, q1: Point, q2: Point): (r: Point)
    requires ValidCurve(c) && OnCurve(c, q1) && OnCurve(c, q2)
    ensures OnCurve(c, r)
  {
    if q1.Infinity? then q2
    else if q2.Infinity? then q1
    else if q1.x == q2.x then
      SameX(c, q1.x, q1.y, q2.y);
      if Cong(q1.y + q2.y, 0, c.p) then Infinity
      else
        TangentClosed(c, q1.x, q1.y);
        Third(c, q1.x, q1.y, q2.x, TangentSlope(c, q1.x, q1.y))
    else
      DistinctResidues(q2.x, q1.x, c.p);
      ChordClosed(c, q1.x, q1.y, q2.x, q2.y);
      Third(c, q1.x, q1.y, q2.x, ChordSlope(c, q1.x, q1.y, q2.x, q2.y))
  }

  ghost function Double(c: Curve, q: Point): (r: Point)
    requires ValidCurve(c) && OnCurve(c, q)
    ensures OnCurve(c, r)
  {
    Add(c, q, q)
  }

  // ---------------------------------------------------------------------------------------------
  // Closure: the line meets the curve where the rule says

  lemma SlopeOf(num: int, den: int, p: int)
    requires IsPrime(p) && !Cong(den, 0, p)
    ensures Cong((num * Inverse(den, p)) * den, num, p)
  {
    hide Cong, IsPrime;
    var i := Inverse(den, p);
    CongRefl(num, p);
    CongMul(num, num, den * i, 1, p);
    assert num * (den * i) == (num * i) * den;
  }

  /** The cubic minus the square of the line, with k for the square of the slope. */
  function Difference(a: int, c0: int, m: int, k: int, x1: int, x: int): (r: int) {
    x * x * x + a * x + c0 - m * (x - x1) - k * ((x - x1) * (x - x1))
  }

  /** The difference expanded around x1, when the abscissae x1, x1 + e and x1 + f add up to k. */
  lemma DifferenceExpand(a: int, c0: int, m: int, k: int, x1: int, e: int, f: int)
    requires k == 3 * x1 + e + f
    ensures Difference(a, c0, m, k, x1, x1 + e)
         == Difference(a, c0, m, k, x1, x1) + e * (3 * x1 * x1 + a - m) - e * e * f
  {
    assert (x1 + e) * (x1 + e) * (x1 + e) == x1 * x1 * x1 + 3 * (x1 * x1 * e) + 3 * (x1 * e * e) + e * e * e;
    assert k * (e * e) == 3 * (x1 * e * e) + e * e * e + e * e * f;
  }

  lemma ChordIdentity(a: int, c0: int, m: int, k: int, x1: int, x2: int, s: int)
    requires k == s + x1 + x2
    ensures (x2 - x1) * Difference(a, c0, m, k, x1, s)
         == (x2 - s) * Difference(a, c0, m, k, x1, x1) + (s - x1) * Difference(a, c0, m, k, x1, x2)
  {
    hide Difference;
    var e, f := x2 - x1, s - x1;
    DifferenceExpand(a, c0, m, k, x1, e, f);
    DifferenceExpand(a, c0, m, k, x1, f, e);
    CrossTerms(Difference(a, c0, m, k, x1, x1), 3 * x1 * x1 + a - m, e, f);
  }

  lemma CrossTerms(d: int, q: int, e: int, f: int)
    ensures e * (d + f * q - f * f * e) == (e - f) * d + f * (d + e * q - e * e * f)
  {
  }

  lemma TangentIdentity(a: int, c0: int, m: int, k: int, x1: int, s: int)
    requires k == s + x1 + x1
    ensures Difference(a, c0, m, k, x1, s)
         == Difference(a, c0, m, k, x1, x1) + (s - x1) * (3 * x1 * x1 + a - m)
  {
  }

  lemma LineSquare(c: Curve, x1: int, y1: int, l: int, x: int)
    ensures Difference(c.a, c.b - y1 * y1, 2 * y1 * l, l * l, x1, x)
         == Cubic(c, x) - (y1 + l * (x - x1)) * (y1 + l * (x - x1))
  {
  }

  lemma CubicCong(c: Curve, x: int, x': int)
    requires Cong(x, x', c.p)
    ensures Cong(Cubic(c, x), Cubic(c, x'), c.p)
  {
    hide Cong;
    CongMul(x, x', x, x', c.p);
    CongMul(x * x, x' * x', x, x', c.p);
    CongRefl(c.a, c.p);
    CongMul(c.a, c.a, x, x', c.p);
    CongRefl(c.b, c.p);
    CongAdd(x * x * x, x' * x' * x', c.a * x, c.a * x', c.p);
    CongAdd(x * x * x + c.a * x, x' * x' * x' + c.a * x', c.b, c.b, c.p);
  }

  /** A root of the difference at the third abscissa is a point of the curve. */
  lemma ThirdOnCurve(c: Curve, x1: nat, y1: nat, x2: nat, l: int, s: int)
    requires c.p > 0 && s == l * l - x1 - x2
    requires Cong(Difference(c.a, c.b - y1 * y1, 2 * y1 * l, l * l, x1, s), 0, c.p)
    ensures OnCurve(c, Third(c, x1, y1, x2, l))
    ensures Cong(Third(c, x1, y1, x2, l).x, s, c.p)
    ensures Cong(Third(c, x1, y1, x2, l).y, l * (x1 - Third(c, x1, y1, x2, l).x) - y1, c.p)
  {
    hide Cong, Cubic, Difference;
    var p := c.p;
    var x3 := s % p;
    var y3 := (l * (x1 - x3) - y1) % p;
    CongMod(s, p);
    CongMod(l * (x1 - x3) - y1, p);
    var t := y1 + l * (s - x1);
    CongRefl(l, p);
    CongRefl(x1, p);
    CongRefl(y1, p);
    CongSub(x1, x1, x3, s, p);
    CongMul(l, l, x1 - x3, x1 - s, p);
    CongSub(l * (x1 - x3), l * (x1 - s), y1, y1, p);
    CongTrans(y3, l * (x1 - x3) - y1, l * (x1 - s) - y1, p);
    NegatedLine(l, x1, s, y1);
    CongMul(y3, -t, y3, -t, p);
    assert (-t) * (-t) == t * t;
    LineSquare(c, x1, y1, l, s);
    CongRefl(t * t, p);
    CongAdd(Cubic(c, s) - t * t, 0, t * t, t * t, p);
    CongSym(Cubic(c, s), t * t, p);
    CongTrans(y3 * y3, t * t, Cubic(c, s), p);
    CubicCong(c, x3, s);
    CongSym(Cubic(c, x3), Cubic(c, s), p);
    CongTrans(y3 * y3, Cubic(c, s), Cubic(c, x3), p);
  }

  lemma NegatedLine(l: int, x1: int, s: int, y1: int)
    ensures l * (x1 - s) - y1 == -(y1 + l * (s - x1))
  {
  }

  /** The difference vanishes where the line passes through a point of the curve. */
  lemma DifferenceAt(c: Curve, x1: int, y1: int, l: int, x: nat, y: nat)
    requires c.p > 0 && OnCurve(c, Affine(x, y)) && Cong(l * (x - x1), y - y1, c.p)
    ensures Cong(Difference(c.a, c.b - y1 * y1, 2 * y1 * l, l * l, x1, x), 0, c.p)
  {
    hide Cong, Cubic, Difference;
    var p := c.p;
    LineSquare(c, x1, y1, l, x);
    CongRefl(y1, p);
    CongAdd(y1, y1, l * (x - x1), y - y1, p);
    var t := y1 + l * (x - x1);
    CongMul(t, y, t, y, p);
    CongSym(y * y, Cubic(c, x), p);
    CongSub(Cubic(c, x), y * y, t * t, y * y, p);
  }

  lemma ChordClosed(c: Curve, x1: nat, y1: nat, x2: nat, y2: nat)
    requires ValidCurve(c) && OnCurve(c, Affine(x1, y1)) && OnCurve(c, Affine(x2, y2))
    requires !Cong(x2 - x1, 0, c.p)
    ensures var l := ChordSlope(c, x1, y1, x2, y2);
      var r := Third(c, x1, y1, x2, l);
      && OnCurve(c, r)
      && Cong(l * (x2 - x1), y2 - y1, c.p)
      && Cong(r.x, l * l - x1 - x2, c.p)
      && Cong(r.y, l * (x1 - r.x) - y1, c.p)
  {
    hide Cong, IsPrime, Cubic, Difference;
    var p := c.p;
    var l := ChordSlope(c, x1, y1, x2, y2);
    var s := l * l - x1 - x2;
    SlopeOf(y2 - y1, x2 - x1, p);
    CongRefl(0, p);
    assert l * (x1 - x1) == 0;
    DifferenceAt(c, x1, y1, l, x1, y1);
    DifferenceAt(c, x1, y1, l, x2, y2);
    ChordIdentity(c.a, c.b - y1 * y1, 2 * y1 * l, l * l, x1, x2, s);
    var d1 := Difference(c.a, c.b - y1 * y1, 2 * y1 * l, l * l, x1, x1);
    var d2 := Difference(c.a, c.b - y1 * y1, 2 * y1 * l, l * l, x1, x2);
    var d3 := Difference(c.a, c.b - y1 * y1, 2 * y1 * l, l * l, x1, s);
    CongRefl(x2 - s, p);
    CongRefl(s - x1, p);
    CongMul(x2 - s, x2 - s, d1, 0, p);
    CongMul(s - x1, s - x1, d2, 0, p);
    assert (x2 - s) * 0 == 0 && (s - x1) * 0 == 0;
    CongAdd((x2 - s) * d1, 0, (s - x1) * d2, 0, p);
    EuclidLemma(x2 - x1, d3, p);
    ThirdOnCurve(c, x1, y1, x2, l, s);
  }

  lemma TangentClosed(c: Curve, x1: nat, y1: nat)
    requires ValidCurve(c) && OnCurve(c, Affine(x1, y1))
    requires !Cong(2 * y1, 0, c.p)
    ensures var l := TangentSlope(c, x1, y1);
      var r := Third(c, x1, y1, x1, l);
      && OnCurve(c, r)
      && Cong(l * (2 * y1), 3 * x1 * x1 + c.a, c.p)
      && Cong(r.x, l * l - x1 - x1, c.p)
      && Cong(r.y, l * (x1 - r.x) - y1, c.p)
  {
    hide Cong, IsPrime, Cubic, Difference;
    var p := c.p;
    var l := TangentSlope(c, x1, y1);
    var s := l * l - x1 - x1;
    SlopeOf(3 * x1 * x1 + c.a, 2 * y1, p);
    CongRefl(0, p);
    assert l * (x1 - x1) == 0;
    DifferenceAt(c, x1, y1, l, x1, y1);
    var m := 2 * y1 * l;
    assert m == l * (2 * y1);
    TangentIdentity(c.a, c.b - y1 * y1, m, l * l, x1, s);
    var d1 := Difference(c.a, c.b - y1 * y1, m, l * l, x1, x1);
    var t := 3 * x1 * x1 + c.a;
    CongRefl(t, p);
    CongSub(t, t, m, t, p);
    CongRefl(s - x1, p);
    CongMul(s - x1, s - x1, t - m, 0, p);
    assert (s - x1) * 0 == 0;
    CongAdd(d1, 0, (s - x1) * (t - m), 0, p);
    ThirdOnCurve(c, x1, y1, x1, l, s);
  }

  // ---------------------------------------------------------------------------------------------
  // The rule by cases

  lemma AddInfinity(c: Curve, q: Point)
    requires ValidCurve(c) && OnCurve(c, q)
    ensures OnCurve(c, Infinity) && Double(c, Infinity) == Infinity
    ensures Add(c, q, Infinity) == q && Add(c, Infinity, q) == q
  {
  }

  lemma DoubleInfinity(c: Curve)
    requires ValidCurve(c)
    ensures OnCurve(c, Infinity) && Double(c, Infinity) == Infinity
  {
  }

  lemma FieldSize(c: Curve)
    requires ValidCurve(c)
    ensures c.p >= 3
  {
  }

  /** (0, 0) is not on the curve, so it is free to encode infinity. */
  lemma OriginOffCurve(c: Curve)
    requires ValidCurve(c)
    ensures !OnCurve(c, Affine(0, 0))
  {
    if OnCurve(c, Affine(0, 0)) {
      assert Cubic(c, 0) == c.b;
      CongSym(0, c.b, c.p);
      CongUnique(c.b, 0, c.p);
    }
  }

  /** A pair outside the field, or the origin, is not a point of the curve. */
  lemma OffCurve(c: Curve, x: nat, y: nat)
    requires ValidCurve(c) && (x >= c.p || y >= c.p || (x == 0 && y == 0))
    ensures !OnCurve(c, Affine(x, y))
  {
    OriginOffCurve(c);
  }

  lemma AddChord(c: Curve, q1: Point, q2: Point) returns (l: int)
    requires ValidCurve(c) && OnCurve(c, q1) && OnCurve(c, q2)
    requires q1.Affine? && q2.Affine? && q1.x != q2.x
    ensures Add(c, q1, q2).Affine?
    ensures Cong(l * (q2.x - q1.x), q2.y - q1.y, c.p)
    ensures Cong(Add(c, q1, q2).x, l * l - q1.x - q2.x, c.p)
    ensures Cong(Add(c, q1, q2).y, l * (q1.x - Add(c, q1, q2).x) - q1.y, c.p)
  {
    hide Cong, IsPrime, Cubic, Third;
    DistinctResidues(q2.x, q1.x, c.p);
    ChordClosed(c, q1.x, q1.y, q2.x, q2.y);
    l := ChordSlope(c, q1.x, q1.y, q2.x, q2.y);
  }

  lemma AddTangent(c: Curve, q: Point) returns (l: int)
    requires ValidCurve(c) && OnCurve(c, q)
    requires q.Affine? && !Cong(2 * q.y, 0, c.p)
    ensures Double(c, q).Affine?
    ensures Cong(l * (2 * q.y), 3 * q.x * q.x + c.a, c.p)
    ensures Cong(Double(c, q).x, l * l - q.x - q.x, c.p)
    ensures Cong(Double(c, q).y, l * (q.x - Double(c, q).x) - q.y, c.p)
  {
    hide Cong, IsPrime, Cubic, Third;
    TangentClosed(c, q.x, q.y);
    l := TangentSlope(c, q.x, q.y);
  }

  lemma DoubleVertical(c: Curve, q: Point)
    requires ValidCurve(c) && OnCurve(c, q)
    requires q.Affine? && Cong(2 * q.y, 0, c.p)
    ensures Double(c, q) == Infinity
  {
    hide Cong, IsPrime, Cubic, Third;
    assert q.y + q.y == 2 * q.y;
  }

  /** Points that share x either coincide, and are doubled, or are opposite, and cancel. */
  lemma AddSameX(c: Curve, q1: Point, q2: Point)
    requires ValidCurve(c) && OnCurve(c, q1) && OnCurve(c, q2)
    requires q1.Affine? && q2.Affine? && q1.x == q2.x
    ensures Add(c, q1, q2) == if q1.y == q2.y then Double(c, q1) else Infinity
  {
    hide Cong, IsPrime, Cubic, Third;
    SameX(c, q1.x, q1.y, q2.y);
  }

  /** Two slopes of one chord give the same third point from either end. */
  lemma ThirdSymmetric(p: nat, x1: int, y1: int, x2: int, y2: int, l: int, l': int, r: Point, r': Point)
    requires IsPrime(p) && !Cong(x2 - x1, 0, p) && r.Affine? && r'.Affine?
    requires r.x < p && r.y < p && r'.x < p && r'.y < p
    requires Cong(l * (x2 - x1), y2 - y1, p) && Cong(l' * (x1 - x2), y1 - y2, p)
    requires Cong(r.x, l * l - x1 - x2, p) && Cong(r.y, l * (x1 - r.x) - y1, p)
    requires Cong(r'.x, l' * l' - x2 - x1, p) && Cong(r'.y, l' * (x2 - r'.x) - y2, p)
    ensures r == r'
  {
    hide Cong, IsPrime;
    CongRefl(0, p);
    CongSub(0, 0, l' * (x1 - x2), y1 - y2, p);
    assert 0 - l' * (x1 - x2) == l' * (x2 - x1);
    CongSym(l' * (x2 - x1), y2 - y1, p);
    CongTrans(l * (x2 - x1), y2 - y1, l' * (x2 - x1), p);
    CancelFactor(l, l', x2 - x1, p);
    CongMul(l, l', l, l', p);
    CongRefl(x1 + x2, p);
    CongSub(l * l, l' * l', x1 + x2, x1 + x2, p);
    CongTrans(r.x, l * l - x1 - x2, l' * l' - x2 - x1, p);
    CongSym(r'.x, l' * l' - x2 - x1, p);
    CongTrans(r.x, l' * l' - x2 - x1, r'.x, p);
    CongUnique(r.x, r'.x, p);
    CongRefl(x1 - r.x, p);
    CongMul(l, l', x1 - r.x, x1 - r.x, p);
    CongRefl(y1, p);
    CongSub(l * (x1 - r.x), l' * (x1 - r.x), y1, y1, p);
    CongTrans(r.y, l * (x1 - r.x) - y1, l' * (x1 - r.x) - y1, p);
    CongSub(l' * (x1 - r.x), l' * (x1 - r.x), l' * (x1 - x2), y1 - y2, p) by {
      CongRefl(l' * (x1 - r.x), p);
    }
    CongRefl(y2, p);
    CongSub(l' * (x1 - r.x) - l' * (x1 - x2), l' * (x1 - r.x) - (y1 - y2), y2, y2, p);
    SlideLine(l', x1, x2, r.x);
    CongTrans(r'.y, l' * (x2 - r.x) - y2, l' * (x1 - r.x) - y1, p);
    CongSym(r'.y, l' * (x1 - r.x) - y1, p);
    CongTrans(r.y, l' * (x1 - r.x) - y1, r'.y, p);
    CongUnique(r.y, r'.y, p);
  }

  lemma SlideLine(l: int, x1: int, x2: int, x: int)
    ensures l * (x1 - x) - l * (x1 - x2) == l * (x2 - x)
  {
  }

  /** The rule is commutative. */
  lemma AddCommutes(c: Curve, q1: Point, q2: Point)
    requires ValidCurve(c) && OnCurve(c, q1) && OnCurve(c, q2)
    ensures Add(c, q1, q2) == Add(c, q2, q1)
  {
    if q1.Affine? && q2.Affine? {
      if q1.x == q2.x {
        AddSameX(c, q1, q2);
        AddSameX(c, q2, q1);
      } else {
        var l := AddChord(c, q1, q2);
        var l' := AddChord(c, q2, q1);
        DistinctResidues(q2.x, q1.x, c.p);
        hide *;
        ThirdSymmetric(c.p, q1.x, q1.y, q2.x, q2.y, l, l', Add(c, q1, q2), Add(c, q2, q1));
      }
    }
  }

}
