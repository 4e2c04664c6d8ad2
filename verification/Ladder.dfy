/**
 * The Strauss-Shamir ladder over the affine group: the sequence of doublings and additions that both
 * verifiers perform in their own coordinates, and what it computes.
 */
module Ladders {
  import opened Words
  import opened Curves

  /** The table entry for one bit of each scalar. */
  ghost function Pick(c: Curve, g: Point, q: Point, bu: nat, bv: nat): (r: Point)
    requires ValidCurve(c) && OnCurve(c, g) && OnCurve(c, q)
    ensures OnCurve(c, r)
  {
    if bu == 0 then (if bv == 0 then Infinity else q)
    else (if bv == 0 then g else Add(c, g, q))
  }

  /** The accumulator after all bits of u and v, most significant first. */
  ghost function Ladder(c: Curve, g: Point, q: Point, u: nat, v: nat): (r: Point)
    requires ValidCurve(c) && OnCurve(c, g) && OnCurve(c, q)
    ensures OnCurve(c, r)
    decreases u + v
  {
    if u == 0 && v == 0 then Infinity
    else Add(c, Double(c, Ladder(c, g, q, u / 2, v / 2)), Pick(c, g, q, u % 2, v % 2))
  }

  /** One more bit of each scalar is one doubling and one addition. */
  lemma LadderStep(c: Curve, g: Point, q: Point, u: nat, v: nat, i: nat)
    requires ValidCurve(c) && OnCurve(c, g) && OnCurve(c, q)
    ensures Ladder(c, g, q, Shr(i, u), Shr(i, v))
         == Add(c, Double(c, Ladder(c, g, q, Shr(i + 1, u), Shr(i + 1, v))),
                Pick(c, g, q, Shr(i, u) % 2, Shr(i, v) % 2))
  {
    hide Shr, OnCurve, ValidCurve;
    ShrStep(i, u);
    ShrStep(i, v);
  }

  // ---------------------------------------------------------------------------------------------
  // Linear combinations

  /** The group rule is associative: the one fact about the curve that is assumed, where it is needed. */
  ghost predicate Associative(c: Curve)
    requires ValidCurve(c)
  {
    forall q1, q2, q3 :: OnCurve(c, q1) && OnCurve(c, q2) && OnCurve(c, q3) ==>
      Add(c, Add(c, q1, q2), q3) == Add(c, q1, Add(c, q2, q3))
  }

  ghost function Multiple(c: Curve, k: nat, q: Point): (r: Point)
    requires ValidCurve(c) && OnCurve(c, q)
    ensures OnCurve(c, r)
  {
    if k == 0 then Infinity else Add(c, Multiple(c, k - 1, q), q)
  }

  lemma AddAssociates(c: Curve, q1: Point, q2: Point, q3: Point)
    requires ValidCurve(c) && Associative(c)
    requires OnCurve(c, q1) && OnCurve(c, q2) && OnCurve(c, q3)
    ensures Add(c, Add(c, q1, q2), q3) == Add(c, q1, Add(c, q2, q3))
  {
  }

  lemma {:induction false} MultipleAdd(c: Curve, i: nat, j: nat, q: Point)
    requires ValidCurve(c) && Associative(c) && OnCurve(c, q)
    ensures Multiple(c, i + j, q) == Add(c, Multiple(c, i, q), Multiple(c, j, q))
    decreases j
  {
    hide OnCurve, ValidCurve, Associative;
    if j == 0 {
      AddInfinity(c, Multiple(c, i, q));
    } else {
      MultipleAdd(c, i, j - 1, q);
      AddAssociates(c, Multiple(c, i, q), Multiple(c, j - 1, q), q);
    }
  }

  /** (w + x) + (y + z) == (w + y) + (x + z) */
  lemma Interchange(c: Curve, w: Point, x: Point, y: Point, z: Point)
    requires ValidCurve(c) && Associative(c)
    requires OnCurve(c, w) && OnCurve(c, x) && OnCurve(c, y) && OnCurve(c, z)
    ensures Add(c, Add(c, w, x), Add(c, y, z)) == Add(c, Add(c, w, y), Add(c, x, z))
  {
    hide OnCurve, ValidCurve, Associative, Add;
    AddAssociates(c, w, x, Add(c, y, z));
    AddAssociates(c, x, y, z);
    AddCommutes(c, x, y);
    AddAssociates(c, y, x, z);
    AddAssociates(c, w, y, Add(c, x, z));
  }

  lemma PickIsLinear(c: Curve, g: Point, q: Point, bu: nat, bv: nat)
    requires ValidCurve(c) && OnCurve(c, g) && OnCurve(c, q) && bu <= 1 && bv <= 1
    ensures Pick(c, g, q, bu, bv) == Add(c, Multiple(c, bu, g), Multiple(c, bv, q))
  {
    hide OnCurve, ValidCurve;
    AddInfinity(c, g);
    AddInfinity(c, q);
    assert Multiple(c, 0, g) == Infinity && Multiple(c, 0, q) == Infinity;
    assert Multiple(c, 1, g) == Add(c, Multiple(c, 0, g), g);
    assert Multiple(c, 1, q) == Add(c, Multiple(c, 0, q), q);
  }

  /** The ladder computes u * G + v * Q. */
  lemma {:induction false} LadderIsLinear(c: Curve, g: Point, q: Point, u: nat, v: nat)
    requires ValidCurve(c) && Associative(c) && OnCurve(c, g) && OnCurve(c, q)
    ensures Ladder(c, g, q, u, v) == Add(c, Multiple(c, u, g), Multiple(c, v, q))
    decreases u + v
  {
    hide OnCurve, ValidCurve, Associative, Add, Pick;
    if u == 0 && v == 0 {
      AddInfinity(c, g);
      AddInfinity(c, Infinity);
    } else {
      var u', v' := u / 2, v / 2;
      LadderIsLinear(c, g, q, u', v');
      PickIsLinear(c, g, q, u % 2, v % 2);
      LinearStep(c, g, q, u', v', u % 2, v % 2);
    }
  }

  lemma LinearStep(c: Curve, g: Point, q: Point, u: nat, v: nat, bu: nat, bv: nat)
    requires ValidCurve(c) && Associative(c) && OnCurve(c, g) && OnCurve(c, q)
    ensures Add(c, Double(c, Add(c, Multiple(c, u, g), Multiple(c, v, q))),
                Add(c, Multiple(c, bu, g), Multiple(c, bv, q)))
         == Add(c, Multiple(c, 2 * u + bu, g), Multiple(c, 2 * v + bv, q))
  {
    hide OnCurve, ValidCurve, Associative, Add, Multiple;
    var ug, vq := Multiple(c, u, g), Multiple(c, v, q);
    Interchange(c, ug, vq, ug, vq);
    MultipleAdd(c, u, u, g);
    MultipleAdd(c, v, v, q);
    Interchange(c, Multiple(c, 2 * u, g), Multiple(c, 2 * v, q), Multiple(c, bu, g), Multiple(c, bv, q));
    MultipleAdd(c, 2 * u, bu, g);
    MultipleAdd(c, 2 * v, bv, q);
  }

  /** The first active bit of either scalar loads the accumulator with its table entry. */
  lemma FirstPoint(c: Curve, g: Point, q: Point, u: nat, v: nat, i: nat)
    requires ValidCurve(c) && OnCurve(c, g) && OnCurve(c, q)
    requires Shr(i + 1, u) == 0 && Shr(i + 1, v) == 0
    ensures Ladder(c, g, q, Shr(i, u), Shr(i, v)) == Pick(c, g, q, Shr(i, u) % 2, Shr(i, v) % 2)
  {
    hide Shr, OnCurve, ValidCurve, Pick;
    LadderStep(c, g, q, u, v, i);
    AddInfinity(c, Pick(c, g, q, Shr(i, u) % 2, Shr(i, v) % 2));
    assert Ladder(c, g, q, 0, 0) == Infinity;
  }

}
