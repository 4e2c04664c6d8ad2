/**
 * The ladder and the ECDSA verification of contracts/enclave-smart-account/P256Verifier.sol.
 */
module SolidityVerifier {
  import opened Words
  import opened Congruence
  import opened NumberTheory
  import opened FieldArith
  import opened Curves
  import opened Ladders
  import opened Ecdsa
  import opened XYZZ

  function ComputeBitpair(index: nat, u: nat, v: nat): (r: nat) {
    (Shr(index, v) % 2) * 2 + Shr(index, u) % 2
  }

  predicate SatisfiesCurveEqn(c: Curve, x: nat, y: nat) {
    var lhs := MulMod(y, y, c.p);
    var rhs := AddMod(MulMod(MulMod(x, x, c.p), x, c.p), MulMod(c.a, x, c.p), c.p);
    lhs == AddMod(rhs, c.b, c.p)
  }

  predicate IsValidPubkey(c: Curve, x: nat, y: nat) {
    if x >= c.p || y >= c.p || (x == 0 && y == 0) then false else SatisfiesCurveEqn(c, x, y)
  }

  /** The key check accepts exactly the finite points of the curve. */
  lemma ValidPubkeyIff(c: Curve, x: nat, y: nat)
    requires ValidCurve(c)
    ensures IsValidPubkey(c, x, y) <==> OnCurve(c, Affine(x, y))
  {
    hide Cong, IsPrime, MulMod, AddMod;
    var p := c.p;
    if x < p && y < p {
      CongRefl(x, p);
      CongRefl(y, p);
      CongRefl(c.a, p);
      CongRefl(c.b, p);
      MulModCong(y, y, y, y, p);
      MulModCong(x, x, x, x, p);
      var xx := MulMod(x, x, p);
      MulModCong(xx, x * x, x, x, p);
      MulModCong(c.a, c.a, x, x, p);
      AddModCong(MulMod(xx, x, p), x * x * x, MulMod(c.a, x, p), c.a * x, p);
      var lhs, rhs := MulMod(y, y, p), AddMod(MulMod(xx, x, p), MulMod(c.a, x, p), p);
      AddModCong(rhs, x * x * x + c.a * x, c.b, c.b, p);
      SameResidue(lhs, y * y, AddMod(rhs, c.b, p), Cubic(c, x), p);
      if OnCurve(c, Affine(x, y)) {
        OriginOffCurve(c);
      }
    }
  }

  lemma SameResidue(m: nat, v: int, m': nat, v': int, p: nat)
    requires m < p && m' < p && Cong(m, v, p) && Cong(m', v', p)
    ensures m == m' <==> Cong(v, v', p)
  {
    hide Cong;
    CongSym(m, v, p);
    CongSym(m', v', p);
    if m == m' {
      CongTrans(v, m, v', p);
    }
    if Cong(v, v', p) {
      CongTrans(m, v, v', p);
      CongTrans(m, v', m', p);
      CongUnique(m, m', p);
    }
  }

  // ---------------------------------------------------------------------------------------------
  // The ladder

  /** The accumulator before the first doubling when G + Q is infinity. */
  const BARE_START := ZZPoint(0, 0, 1, 1)

  /** The accumulator stands for q; the bare start stands for infinity although its scale is one. */
  ghost predicate Accumulates(c: Curve, s: ZZPoint, q: Point) {
    Represents(c, s, q) || (s == BARE_START && q.Infinity?)
  }

  lemma StartAccumulates(c: Curve, x: nat, y: nat, q: Point)
    requires ValidCurve(c) && OnCurve(c, q) && AffRepresents(x, y, q)
    ensures Accumulates(c, ZZPoint(x, y, 1, 1), q)
  {
    if q.Affine? {
      StoredAtOne(c, q);
    }
  }

  /** The next doubling turns the bare start into infinity. */
  lemma BareStartVanishes(c: Curve)
    requires ValidCurve(c)
    ensures Represents(c, DoubleZZ(c, BARE_START), Infinity)
  {
    hide Cong, IsPrime, DoubleZZ;
    CongRefl(0, c.p);
    DoubleVanishes(c, BARE_START, 0, 1);
  }

  lemma DoubleAccumulates(c: Curve, s: ZZPoint, q: Point)
    requires ValidCurve(c) && OnCurve(c, q) && Accumulates(c, s, q)
    ensures Represents(c, DoubleZZ(c, s), Double(c, q))
  {
    hide Cong, IsPrime, DoubleZZ, Represents, OnCurve, ValidCurve;
    if Represents(c, s, q) {
      DoubleRefines(c, s, q);
    } else {
      BareStartVanishes(c);
      AddInfinity(c, q);
    }
  }

  /** The final division returns the affine x, or 0 for infinity. */
  lemma FinalX(c: Curve, s: ZZPoint, q: Point)
    requires ValidCurve(c) && OnCurve(c, q) && Accumulates(c, s, q)
    ensures MulMod(s.x, PModInv(c, s.zz), c.p) == XOrZero(q)
  {
    hide Cong, IsPrime, MulMod, ModInv;
    var p := c.p;
    var i := PModInv(c, s.zz);
    ReducedSelf(s.zz, p);
    ModInvCorrect(s.zz, p);
    if q.Infinity? {
      TimesZero(s.x, p);
      TimesZero(i, p);
    } else {
      var z :| StoredAt(p, s, q.x, q.y, z);
      StoredIsFinite(p, s, q.x, q.y, z);
      var z2 := z * z;
      CongRefl(i, p);
      CongMul(s.zz, z2, i, i, p);
      CongSym(s.zz * i, z2 * i, p);
      CongTrans(z2 * i, s.zz * i, 1, p);
      MulModCong(s.x, q.x * z2, i, i, p);
      Regroup(q.x, z2, i);
      Rescaled(MulMod(s.x, i, p), q.x, z2 * i, p);
    }
  }

  /** On the curve; only the first accumulator of a run may be the bare start, and only when G + Q is infinity. */
  ghost predicate Sound(c: Curve, s: ZZPoint, first: bool, h: Point) {
    OnCurveZZ(c, s) || (first && s == BARE_START && h.Infinity?)
  }

  lemma AccumulatesSound(c: Curve, s: ZZPoint, q: Point, first: bool, h: Point)
    requires ValidCurve(c) && OnCurve(c, q)
    requires Represents(c, s, q) || (first && Accumulates(c, s, q) && (q.Infinity? ==> h.Infinity?))
    ensures Sound(c, s, first, h)
  {
    if Represents(c, s, q) {
      RepresentsOnCurve(c, s, q);
    }
  }

  /** The top bit of the remaining prefix: what is left above it is zero. */
  lemma TopStep(u: nat, i: nat)
    requires Shr(i + 1, u) == 0
    ensures Shr(i, u) == Shr(i, u) % 2
  {
    ShrStep(i, u);
  }

  /** The bit pair selects the coordinates of the ladder's table entry. */
  lemma Selects(d: Domain, qx: nat, qy: nat, hx: nat, hy: nat, u: nat, v: nat, i: nat)
    requires ValidDomain(d) && OnCurve(d.c, Affine(qx, qy))
    requires AffRepresents(hx, hy, Add(d.c, d.G(), Affine(qx, qy)))
    ensures var pick := Pick(d.c, d.G(), Affine(qx, qy), Shr(i, u) % 2, Shr(i, v) % 2);
      match ComputeBitpair(i, u, v)
      case 0 => pick == Infinity
      case 1 => AffRepresents(d.gx, d.gy, pick)
      case 2 => AffRepresents(qx, qy, pick)
      case _ => AffRepresents(hx, hy, pick)
  {
    hide Add, OnCurve, ValidDomain, ValidCurve, Shr;
  }

  lemma NothingToAdd(c: Curve, g: Point, q: Point)
    requires ValidCurve(c) && OnCurve(c, g) && OnCurve(c, q)
    ensures XOrZero(Ladder(c, g, q, 0, 0)) == 0
  {
  }

  /** One round of the main loop. */
  lemma Round(c: Curve, g: Point, q: Point, u: nat, v: nat, i: nat, s: ZZPoint)
    requires ValidCurve(c) && OnCurve(c, g) && OnCurve(c, q)
    requires Accumulates(c, s, Ladder(c, g, q, Shr(i + 1, u), Shr(i + 1, v)))
    ensures var pick := Pick(c, g, q, Shr(i, u) % 2, Shr(i, v) % 2);
      var next := Ladder(c, g, q, Shr(i, u), Shr(i, v));
      && Represents(c, DoubleZZ(c, s), Double(c, Ladder(c, g, q, Shr(i + 1, u), Shr(i + 1, v))))
      && (pick.Infinity? ==> Represents(c, DoubleZZ(c, s), next))
      && (forall tx, ty :: AffRepresents(tx, ty, pick) ==>
            Represents(c, DaddAffine(c, DoubleZZ(c, s), tx, ty), next))
  {
    hide *;
    FieldSize(c);
    var acc := Ladder(c, g, q, Shr(i + 1, u), Shr(i + 1, v));
    var pick := Pick(c, g, q, Shr(i, u) % 2, Shr(i, v) % 2);
    var s' := DoubleZZ(c, s);
    DoubleAccumulates(c, s, acc);
    LadderStep(c, g, q, u, v, i);
    AddInfinity(c, Double(c, acc));
    forall tx, ty | AffRepresents(tx, ty, pick)
      ensures Represents(c, DaddAffine(c, s', tx, ty), Add(c, Double(c, acc), pick))
    {
      DaddRefines(c, s', Double(c, acc), tx, ty, pick);
    }
  }

  lemma BitpairRange(u: nat, v: nat, i: nat)
    ensures ComputeBitpair(i, u, v) <= 3
  {
    hide Shr;
  }

  lemma BitpairZero(u: nat, v: nat, i: nat)
    requires Shr(i + 1, u) == 0 && Shr(i + 1, v) == 0
    ensures ComputeBitpair(i, u, v) <= 3
    ensures ComputeBitpair(i, u, v) == 0 <==> Shr(i, u) == 0 && Shr(i, v) == 0
  {
    hide Shr;
    TopStep(u, i);
    TopStep(v, i);
  }

  lemma DomainParts(d: Domain)
    requires ValidDomain(d)
    ensures ValidCurve(d.c) && OnCurve(d.c, d.G()) && d.c.p >= 3
  {
  }

  /** The first active bit pair loads the accumulator with the ladder's first point. */
  lemma Loads(d: Domain, qx: nat, qy: nat, hx: nat, hy: nat, u: nat, v: nat, i: nat, x: nat, y: nat)
    requires ValidDomain(d) && OnCurve(d.c, Affine(qx, qy))
    requires AffRepresents(hx, hy, Add(d.c, d.G(), Affine(qx, qy)))
    requires Shr(i + 1, u) == 0 && Shr(i + 1, v) == 0
    requires match ComputeBitpair(i, u, v)
      case 0 => false
      case 1 => x == d.gx && y == d.gy
      case 2 => x == qx && y == qy
      case _ => x == hx && y == hy
    ensures Accumulates(d.c, ZZPoint(x, y, 1, 1), Ladder(d.c, d.G(), Affine(qx, qy), Shr(i, u), Shr(i, v)))
    ensures Sound(d.c, ZZPoint(x, y, 1, 1), true, Add(d.c, d.G(), Affine(qx, qy)))
  {
    hide *;
    DomainParts(d);
    var g, q := d.G(), Affine(qx, qy);
    Selects(d, qx, qy, hx, hy, u, v, i);
    FirstPoint(d.c, g, q, u, v, i);
    var pick := Pick(d.c, g, q, Shr(i, u) % 2, Shr(i, v) % 2);
    StartAccumulates(d.c, x, y, pick);
    PickFinite(d, qx, qy, u, v, i);
    AccumulatesSound(d.c, ZZPoint(x, y, 1, 1), pick, true, Add(d.c, g, q));
  }

  lemma PickFinite(d: Domain, qx: nat, qy: nat, u: nat, v: nat, i: nat)
    requires ValidDomain(d) && OnCurve(d.c, Affine(qx, qy)) && ComputeBitpair(i, u, v) != 0
    ensures Pick(d.c, d.G(), Affine(qx, qy), Shr(i, u) % 2, Shr(i, v) % 2).Infinity?
        ==> Add(d.c, d.G(), Affine(qx, qy)).Infinity?
  {
    hide Add, OnCurve, ValidDomain, ValidCurve, Shr;
  }

  lemma SumCoordinates(d: Domain, qx: nat, qy: nat)
    requires ValidDomain(d) && OnCurve(d.c, Affine(qx, qy))
    ensures d.c.p >= 3
    ensures var (hx, hy) := AffAdd(d.c, d.gx, d.gy, qx, qy);
      AffRepresents(hx, hy, Add(d.c, d.G(), Affine(qx, qy)))
  {
    hide AffAdd, Add, OnCurve, ValidCurve;
    DomainParts(d);
    AffAddCorrect(d.c, d.gx, d.gy, d.G(), qx, qy, Affine(qx, qy));
  }

  lemma LinearResult(d: Domain, qx: nat, qy: nat, u: nat, v: nat)
    requires ValidDomain(d) && OnCurve(d.c, Affine(qx, qy))
    ensures ValidCurve(d.c) && OnCurve(d.c, d.G())
    ensures Associative(d.c) ==>
              (Ladder(d.c, d.G(), Affine(qx, qy), u, v)
               == Add(d.c, Multiple(d.c, u, d.G()), Multiple(d.c, v, Affine(qx, qy))))
  {
    hide Ladder, Add, Multiple, OnCurve, ValidCurve, Associative;
    if Associative(d.c) {
      LadderIsLinear(d.c, d.G(), Affine(qx, qy), u, v);
    }
  }

  // ---------------------------------------------------------------------------------------------
  // The run

  /** The table entry of a non-zero bit pair. */
  function TablePoint(d: Domain, qx: nat, qy: nat, bitpair: nat): (t: (nat, nat))
    requires d.c.p >= 2
  {
    if bitpair == 1 then (d.gx, d.gy) else if bitpair == 2 then (qx, qy) else AffAdd(d.c, d.gx, d.gy, qx, qy)
  }

  function Start(d: Domain, qx: nat, qy: nat, bitpair: nat): (s: ZZPoint)
    requires d.c.p >= 2
  {
    var (x, y) := TablePoint(d, qx, qy, bitpair);
    ZZPoint(x, y, 1, 1)
  }

  /** What a round makes of the accumulator. */
  function Advance(d: Domain, qx: nat, qy: nat, bitpair: nat, s: ZZPoint): (s': ZZPoint)
    requires d.c.p >= 2
  {
    var twice := DoubleZZ(d.c, s);
    if bitpair == 0 then twice else
    var (tx, ty) := TablePoint(d, qx, qy, bitpair);
    DaddAffine(d.c, twice, tx, ty)
  }

  /** The highest position at which either scalar has a bit. */
  ghost predicate IsTop(u: nat, v: nat, top: nat) {
    Shr(top + 1, u) == 0 && Shr(top + 1, v) == 0 && ComputeBitpair(top, u, v) != 0
  }

  /** The accumulators from bit `top` down: one per bit, each determined by the one before and the bits there. */
  ghost predicate IsRun(d: Domain, qx: nat, qy: nat, u: nat, v: nat, top: nat, trace: seq<ZZPoint>)
    requires d.c.p >= 2
  {
    && 0 < |trace| <= top + 1
    && trace[0] == Start(d, qx, qy, ComputeBitpair(top, u, v))
    && forall k :: 1 <= k < |trace| ==> trace[k] == Advance(d, qx, qy, ComputeBitpair(top - k, u, v), trace[k - 1])
  }

  lemma TableValues(d: Domain, qx: nat, qy: nat)
    requires d.c.p >= 2
    ensures TablePoint(d, qx, qy, 1) == (d.gx, d.gy) && TablePoint(d, qx, qy, 2) == (qx, qy)
    ensures forall k: nat :: k > 2 ==> TablePoint(d, qx, qy, k) == AffAdd(d.c, d.gx, d.gy, qx, qy)
  {
    hide AffAdd;
  }

  lemma StartValue(d: Domain, qx: nat, qy: nat, bitpair: nat, s: ZZPoint)
    requires d.c.p >= 2 && s.zz == 1 && s.zzz == 1 && (s.x, s.y) == TablePoint(d, qx, qy, bitpair)
    ensures s == Start(d, qx, qy, bitpair)
  {
    hide TablePoint;
  }

  lemma AdvanceValue(d: Domain, qx: nat, qy: nat, bitpair: nat, s: ZZPoint)
    requires d.c.p >= 2
    ensures var t := TablePoint(d, qx, qy, bitpair);
      Advance(d, qx, qy, bitpair, s)
      == if bitpair == 0 then DoubleZZ(d.c, s) else DaddAffine(d.c, DoubleZZ(d.c, s), t.0, t.1)
  {
    hide TablePoint, DoubleZZ, DaddAffine;
  }

  lemma RunStarts(d: Domain, qx: nat, qy: nat, u: nat, v: nat, top: nat, s: ZZPoint)
    requires d.c.p >= 2 && s == Start(d, qx, qy, ComputeBitpair(top, u, v))
    ensures IsRun(d, qx, qy, u, v, top, [s])
  {
    hide Start, Advance, ComputeBitpair;
  }

  lemma RunExtends(d: Domain, qx: nat, qy: nat, u: nat, v: nat, top: nat, trace: seq<ZZPoint>, i: nat, s: ZZPoint)
    requires d.c.p >= 2 && IsRun(d, qx, qy, u, v, top, trace) && i == top - |trace|
    requires s == Advance(d, qx, qy, ComputeBitpair(i, u, v), trace[|trace| - 1])
    ensures IsRun(d, qx, qy, u, v, top, trace + [s])
  {
    hide Start, Advance, ComputeBitpair;
  }

  /** The contract of a run has one solution. */
  lemma {:induction false} RunUnique(d: Domain, qx: nat, qy: nat, u: nat, v: nat, top: nat,
                                     trace: seq<ZZPoint>, trace': seq<ZZPoint>, k: nat)
    requires d.c.p >= 2 && IsRun(d, qx, qy, u, v, top, trace) && IsRun(d, qx, qy, u, v, top, trace')
    requires k < |trace| && k < |trace'|
    ensures trace[k] == trace'[k]
  {
    hide Start, Advance, ComputeBitpair;
    if k > 0 {
      RunUnique(d, qx, qy, u, v, top, trace, trace', k - 1);
    }
  }

  lemma {:induction false} TopUnique(u: nat, v: nat, top: nat, top': nat)
    requires IsTop(u, v, top) && IsTop(u, v, top')
    ensures top == top'
  {
    hide Shr;
    if top < top' {
      ShrStays(u, top + 1, top');
      ShrStays(v, top + 1, top');
    } else if top' < top {
      ShrStays(u, top' + 1, top);
      ShrStays(v, top' + 1, top);
    }
  }

  lemma {:induction false} ShrStays(u: nat, i: nat, j: nat)
    requires Shr(i, u) == 0 && i <= j
    ensures Shr(j, u) == 0
    decreases j
  {
    hide Shr;
    if i < j {
      ShrStays(u, i, j - 1);
      ShrStep(j - 1, u);
    }
  }

  lemma StartLoads(d: Domain, qx: nat, qy: nat, u: nat, v: nat, top: nat)
    requires ValidDomain(d) && OnCurve(d.c, Affine(qx, qy)) && IsTop(u, v, top)
    ensures ValidCurve(d.c) && OnCurve(d.c, d.G()) && d.c.p >= 3
    ensures var s := Start(d, qx, qy, ComputeBitpair(top, u, v));
      && Accumulates(d.c, s, Ladder(d.c, d.G(), Affine(qx, qy), Shr(top, u), Shr(top, v)))
      && Sound(d.c, s, true, Add(d.c, d.G(), Affine(qx, qy)))
  {
    DomainParts(d);
    SumCoordinates(d, qx, qy);
    hide ValidDomain, ValidCurve, OnCurve, Ladder, Add, AffAdd, Accumulates, Sound, Shr, AffRepresents, ComputeBitpair;
    var (hx, hy) := AffAdd(d.c, d.gx, d.gy, qx, qy);
    var s := Start(d, qx, qy, ComputeBitpair(top, u, v));
    BitpairZero(u, v, top);
    Loads(d, qx, qy, hx, hy, u, v, top, s.x, s.y);
  }

  lemma AdvanceRepresents(d: Domain, qx: nat, qy: nat, u: nat, v: nat, i: nat, s: ZZPoint)
    requires ValidDomain(d) && OnCurve(d.c, Affine(qx, qy))
    requires Accumulates(d.c, s, Ladder(d.c, d.G(), Affine(qx, qy), Shr(i + 1, u), Shr(i + 1, v)))
    ensures d.c.p >= 3
    ensures Represents(d.c, Advance(d, qx, qy, ComputeBitpair(i, u, v), s),
                       Ladder(d.c, d.G(), Affine(qx, qy), Shr(i, u), Shr(i, v)))
  {
    DomainParts(d);
    SumCoordinates(d, qx, qy);
    hide ValidDomain, ValidCurve, OnCurve, Ladder, Add, AffAdd, Accumulates, Represents, Shr, AffRepresents, Pick,
      ComputeBitpair, DoubleZZ, DaddAffine, OnCurveZZ, Double;
    var g, q := d.G(), Affine(qx, qy);
    var (hx, hy) := AffAdd(d.c, d.gx, d.gy, qx, qy);
    Round(d.c, g, q, u, v, i, s);
    Selects(d, qx, qy, hx, hy, u, v, i);
  }

  /**
   * The accumulator s after bit i stands for the ladder over the bits consumed; it and its double, the
   * intermediate value of the next round, are sound.
   */
  ghost predicate EntryCorrect(d: Domain, qx: nat, qy: nat, u: nat, v: nat, i: nat, s: ZZPoint, first: bool)
    requires ValidDomain(d) && OnCurve(d.c, Affine(qx, qy))
  {
    && Accumulates(d.c, s, Ladder(d.c, d.G(), Affine(qx, qy), Shr(i, u), Shr(i, v)))
    && Sound(d.c, s, first, Add(d.c, d.G(), Affine(qx, qy)))
    && OnCurveZZ(d.c, DoubleZZ(d.c, s))
  }

  lemma DoubleSound(d: Domain, s: ZZPoint, q: Point)
    requires ValidDomain(d) && OnCurve(d.c, q) && Accumulates(d.c, s, q)
    ensures OnCurveZZ(d.c, DoubleZZ(d.c, s))
  {
    DomainParts(d);
    hide ValidDomain, ValidCurve, OnCurve, Accumulates, Represents, DoubleZZ, OnCurveZZ, Double;
    DoubleAccumulates(d.c, s, q);
    RepresentsOnCurve(d.c, DoubleZZ(d.c, s), Double(d.c, q));
  }

  /** Every accumulator of a run is correct. */
  lemma {:induction false} RunAccumulates(d: Domain, qx: nat, qy: nat, u: nat, v: nat, top: nat,
                                          trace: seq<ZZPoint>, k: nat)
    requires ValidDomain(d) && OnCurve(d.c, Affine(qx, qy)) && d.c.p >= 2 && IsTop(u, v, top)
    requires IsRun(d, qx, qy, u, v, top, trace) && k < |trace|
    ensures EntryCorrect(d, qx, qy, u, v, top - k, trace[k], k == 0)
    decreases k
  {
    hide ValidCurve, OnCurve, Ladder, Add, Represents, Shr, ComputeBitpair, DoubleZZ, Start, Advance, OnCurveZZ, IsTop;
    DomainParts(d);
    if k == 0 {
      StartLoads(d, qx, qy, u, v, top);
    } else {
      RunAccumulates(d, qx, qy, u, v, top, trace, k - 1);
      AdvanceRepresents(d, qx, qy, u, v, top - k, trace[k - 1]);
      RepresentsOnCurve(d.c, trace[k], Ladder(d.c, d.G(), Affine(qx, qy), Shr(top - k, u), Shr(top - k, v)));
    }
    DoubleSound(d, trace[k], Ladder(d.c, d.G(), Affine(qx, qy), Shr(top - k, u), Shr(top - k, v)));
  }

  ghost predicate RunCorrect(d: Domain, qx: nat, qy: nat, u: nat, v: nat, top: nat, trace: seq<ZZPoint>)
    requires ValidDomain(d) && OnCurve(d.c, Affine(qx, qy)) && |trace| <= top + 1
  {
    forall k :: 0 <= k < |trace| ==> EntryCorrect(d, qx, qy, u, v, top - k, trace[k], k == 0)
  }

  lemma RunIsCorrect(d: Domain, qx: nat, qy: nat, u: nat, v: nat, top: nat, trace: seq<ZZPoint>)
    requires ValidDomain(d) && OnCurve(d.c, Affine(qx, qy)) && d.c.p >= 2 && IsTop(u, v, top)
    requires IsRun(d, qx, qy, u, v, top, trace) && |trace| == top + 1
    ensures RunCorrect(d, qx, qy, u, v, top, trace)
    ensures ValidCurve(d.c) && OnCurve(d.c, d.G())
    ensures Accumulates(d.c, trace[top], Ladder(d.c, d.G(), Affine(qx, qy), u, v))
  {
    DomainParts(d);
    hide ValidDomain, ValidCurve, OnCurve, Ladder, Add, Accumulates, Sound, Shr, DoubleZZ, IsTop, IsRun, OnCurveZZ;
    forall k | 0 <= k < |trace|
      ensures EntryCorrect(d, qx, qy, u, v, top - k, trace[k], k == 0)
    {
      RunAccumulates(d, qx, qy, u, v, top, trace, k);
    }
    ShrWhole(u);
    ShrWhole(v);
    RunAccumulates(d, qx, qy, u, v, top, trace, top);
  }

  /** The search for the highest bit. */
  method FirstBitpair(u: nat, v: nat) returns (index: int, bitpair: nat)
    requires u < R && v < R && (u != 0 || v != 0)
    ensures -1 <= index < 255 && IsTop(u, v, index + 1)
    ensures bitpair == ComputeBitpair(index + 1, u, v) && bitpair != 0
  {
    hide *;
    index, bitpair := 255, 0;
    ShrEnds(u);
    ShrEnds(v);
    while index >= 0
      invariant -1 <= index <= 255 && bitpair == 0
      invariant Shr(index + 1, u) == 0 && Shr(index + 1, v) == 0
    {
      BitpairZero(u, v, index);
      bitpair := ComputeBitpair(index, u, v);
      index := index - 1;
      if bitpair != 0 {
        TopFound(u, v, index + 1);
        return;
      }
    }
    assert false;
  }

  lemma TopFound(u: nat, v: nat, i: nat)
    requires Shr(i + 1, u) == 0 && Shr(i + 1, v) == 0 && ComputeBitpair(i, u, v) != 0
    ensures IsTop(u, v, i)
  {
  }

  /**
   * ecZZ_mulmuladd: the affine x of the ladder over u and v, 0 for infinity. The trace holds the accumulator
   * after each bit, from the highest active bit down.
   */
  method MulMulAdd(d: Domain, qx: nat, qy: nat, u: nat, v: nat)
    returns (x: nat, ghost trace: seq<ZZPoint>)
    requires ValidDomain(d) && OnCurve(d.c, Affine(qx, qy)) && u < R && v < R
    ensures x == XOrZero(Ladder(d.c, d.G(), Affine(qx, qy), u, v))
    ensures Associative(d.c) ==>
              x == XOrZero(Add(d.c, Multiple(d.c, u, d.G()), Multiple(d.c, v, Affine(qx, qy))))
    ensures d.c.p >= 2 && (trace == [] <==> u == 0 && v == 0)
    ensures trace != [] ==>
              var top := |trace| - 1;
              && IsTop(u, v, top) && IsRun(d, qx, qy, u, v, top, trace) && RunCorrect(d, qx, qy, u, v, top, trace)
              && x == MulMod(trace[top].x, PModInv(d.c, trace[top].zz), d.c.p)
  {
    hide *;
    LinearResult(d, qx, qy, u, v);
    trace := [];
    var c := d.c;
    DomainParts(d);
    ghost var g, q := d.G(), Affine(qx, qy);
    if u == 0 && v == 0 {
      NothingToAdd(c, g, q);
      return 0, trace;
    }
    var (hx, hy) := AffAdd(c, d.gx, d.gy, qx, qy);
    var index, bitpair := FirstBitpair(u, v);
    ghost var top := index + 1;
    TableValues(d, qx, qy);

    var s := ZZPoint(0, 0, 1, 1);
    if bitpair == 1 {
      s := ZZPoint(d.gx, d.gy, 1, 1);
    } else if bitpair == 2 {
      s := ZZPoint(qx, qy, 1, 1);
    } else if bitpair == 3 {
      s := ZZPoint(hx, hy, 1, 1);
    }
    BitpairRange(u, v, top);
    StartValue(d, qx, qy, bitpair, s);
    RunStarts(d, qx, qy, u, v, top, s);
    trace := [s];

    while index >= 0
      invariant -1 <= index < 255 && |trace| == top - index && trace[|trace| - 1] == s
      invariant IsRun(d, qx, qy, u, v, top, trace)
    {
      ghost var before := s;
      s := DoubleZZ(c, s);
      bitpair := ComputeBitpair(index, u, v);
      index := index - 1;
      if bitpair != 0 {
        var tx, ty;
        if bitpair == 1 {
          tx, ty := d.gx, d.gy;
        } else if bitpair == 2 {
          tx, ty := qx, qy;
        } else {
          tx, ty := hx, hy;
        }
        s := DaddAffine(c, s, tx, ty);
      }
      AdvanceValue(d, qx, qy, bitpair, before);
      RunExtends(d, qx, qy, u, v, top, trace, index + 1, s);
      trace := trace + [s];
    }
    RunIsCorrect(d, qx, qy, u, v, top, trace);
    FinalX(c, s, Ladder(c, g, q, u, v));
    var zzInv := PModInv(c, s.zz);
    x := MulMod(s.x, zzInv, c.p);
  }

  // ---------------------------------------------------------------------------------------------
  // Verification

  /** nModInv inverts the scalar, so mulmod yields the scalar of the reference. */
  lemma ScalarsMatch(d: Domain, value: nat, s: nat)
    requires ValidDomain(d) && 0 < s < d.n
    ensures MulMod(value, ModInv(s, d.n, d.n - 2), d.n) == Scalar(d, value, s)
  {
    hide Cong, IsPrime, ModInv, OnCurve, ValidCurve;
    NotMultiple(s, d.n);
    ModInvCorrect(s, d.n);
    ScalarBy(d, value, s, ModInv(s, d.n, d.n - 2));
  }

  lemma Decision(d: Domain, hash: nat, r: nat, s: nat, x: nat, y: nat)
    requires ValidDomain(d) && WellFormed(d, r, s, x, y)
    ensures LadderAccepts(d, hash, r, s, x, y)
       <==> XOrZero(Ladder(d.c, d.G(), Affine(x, y), Scalar(d, hash, s), Scalar(d, r, s))) % d.n == r
  {
    hide Ladder, Scalar, OnCurve, ValidCurve, IsPrime;
    DivModUnique(0, 0, 0, d.n);
  }

  lemma OutOfRange(d: Domain, hash: nat, r: nat, s: nat, x: nat, y: nat)
    requires ValidDomain(d) && !WellFormed(d, r, s, x, y)
    ensures !LadderAccepts(d, hash, r, s, x, y)
  {
  }

  /** ecdsa_verify decides the reference acceptance, for every input. */
  method EcdsaVerify(d: Domain, hash: nat, r: nat, s: nat, x: nat, y: nat) returns (ok: bool)
    requires ValidDomain(d) && hash < R && r < R && s < R && x < R && y < R
    ensures ok == LadderAccepts(d, hash, r, s, x, y)
    ensures Associative(d.c) ==> ok == Accepts(d, hash, r, s, x, y)
  {
    if Associative(d.c) {
      LadderAcceptsIff(d, hash, r, s, x, y);
    }
    ValidPubkeyIff(d.c, x, y);
    hide Ladder, Scalar, OnCurve, ValidCurve, IsPrime, IsValidPubkey, LadderAccepts, Accepts, Associative,
      XOrZero, MulMod, ModInv, Add, Multiple, IsTop, IsRun, RunCorrect;
    if r == 0 || r >= d.n || s == 0 || s >= d.n {
      OutOfRange(d, hash, r, s, x, y);
      return false;
    }
    if !IsValidPubkey(d.c, x, y) {
      OutOfRange(d, hash, r, s, x, y);
      return false;
    }
    var sInv := ModInv(s, d.n, d.n - 2);
    var u := MulMod(hash, sInv, d.n);
    var v := MulMod(r, sInv, d.n);
    ScalarsMatch(d, hash, s);
    ScalarsMatch(d, r, s);
    var rx, trace := MulMulAdd(d, x, y, u, v);
    Decision(d, hash, r, s, x, y);
    return rx % d.n == r;
  }

}
