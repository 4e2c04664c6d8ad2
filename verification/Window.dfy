/**
 * The 16-entry table and the 2-bit window loop of contracts/enclave-smart-account/SECP256R1.sol.
 */
module Window {
  import opened Words
  import opened Congruence
  import opened NumberTheory
  import opened Curves
  import opened Ladders
  import opened Jacobian

  // ---------------------------------------------------------------------------------------------
  // The table

  /** What entry 4i + j should stand for: i * G + j * Q. */
  ghost function Entry(c: Curve, g: Point, q: Point, i: nat, j: nat): (r: Point)
    requires ValidCurve(c) && OnCurve(c, g) && OnCurve(c, q)
    ensures OnCurve(c, r)
  {
    Add(c, Multiple(c, i, g), Multiple(c, j, q))
  }

  /** The multiple (1, 2 or 3) of an affine point, as the table computes it. */
  function Column(c: Curve, x: nat, y: nat, k: nat): (r: JPoint) {
    var p1 := JPoint(x, y, 1);
    if k == 0 then JPoint(0, 0, 0)
    else if k == 1 then p1
    else if k == 2 then JacobianDouble(c, p1)
    else JAdd(c, p1, JacobianDouble(c, p1))
  }

  /** The contents of the table at 4i + j. */
  function Cell(c: Curve, gx: nat, gy: nat, qx: nat, qy: nat, i: nat, j: nat): (r: JPoint) {
    if i == 0 then Column(c, qx, qy, j)
    else if j == 0 then Column(c, gx, gy, i)
    else JAdd(c, Column(c, gx, gy, i), Column(c, qx, qy, j))
  }

  lemma ColumnValues(c: Curve, x: nat, y: nat)
    ensures Column(c, x, y, 0) == JPoint(0, 0, 0) && Column(c, x, y, 1) == JPoint(x, y, 1)
    ensures Column(c, x, y, 2) == JacobianDouble(c, JPoint(x, y, 1))
    ensures Column(c, x, y, 3) == JAdd(c, JPoint(x, y, 1), JacobianDouble(c, JPoint(x, y, 1)))
  {
    hide JAdd, JacobianDouble;
  }

  lemma CellValues(c: Curve, gx: nat, gy: nat, qx: nat, qy: nat, i: nat)
    requires i <= 3
    ensures Cell(c, gx, gy, qx, qy, 0, i) == Column(c, qx, qy, i)
    ensures Cell(c, gx, gy, qx, qy, i, 0) == Column(c, gx, gy, i)
    ensures forall j: nat :: i > 0 && 0 < j <= 3 ==>
              Cell(c, gx, gy, qx, qy, i, j) == JAdd(c, Column(c, gx, gy, i), Column(c, qx, qy, j))
  {
    hide JAdd, JacobianDouble;
  }

  /** The three sums after entry b, with the multiples of the key in entries 1 to 3. */
  method FillRow(c: Curve, points: array<JPoint>, b: nat)
    requires points.Length == 16 && 4 <= b <= 12
    modifies points
    ensures forall k :: 0 <= k <= b ==> points[k] == old(points[k])
    ensures points[b + 1] == JAdd(c, points[b], points[1])
    ensures points[b + 2] == JAdd(c, points[b], points[2])
    ensures points[b + 3] == JAdd(c, points[b], points[3])
  {
    hide JAdd;
    points[b + 1] := JAdd(c, points[b], points[1]);
    points[b + 2] := JAdd(c, points[b], points[2]);
    points[b + 3] := JAdd(c, points[b], points[3]);
  }

  /** The multiples of the key, in an otherwise empty table. */
  method KeyRow(c: Curve, qx: nat, qy: nat) returns (points: array<JPoint>)
    ensures fresh(points) && points.Length == 16
    ensures points[0] == JPoint(0, 0, 0) && points[1] == JPoint(qx, qy, 1)
    ensures points[2] == JacobianDouble(c, points[1]) && points[3] == JAdd(c, points[1], points[2])
  {
    hide JAdd, JacobianDouble;
    points := new JPoint[16](_ => JPoint(0, 0, 0));
    points[1] := JPoint(qx, qy, 1);
    points[2] := JacobianDouble(c, points[1]);
    points[3] := JAdd(c, points[1], points[2]);
  }

  /** preComputeJacobianPoints. */
  method PreComputeJacobianPoints(c: Curve, gx: nat, gy: nat, qx: nat, qy: nat) returns (points: array<JPoint>)
    ensures fresh(points) && points.Length == 16
    ensures forall k :: 0 <= k < 16 ==> points[k] == Cell(c, gx, gy, qx, qy, k / 4, k % 4)
  {
    hide JAdd, JacobianDouble, Column, Cell, Row;
    ColumnValues(c, gx, gy);
    points := KeyRow(c, qx, qy);
    points[4] := JPoint(gx, gy, 1);
    FillRow(c, points, 4);
    points[8] := JacobianDouble(c, points[4]);
    FillRow(c, points, 8);
    points[12] := JAdd(c, points[4], points[8]);
    FillRow(c, points, 12);

    ghost var table := points[..];
    FirstRow(c, gx, gy, qx, qy, table);
    NextRow(c, gx, gy, qx, qy, table, 1);
    NextRow(c, gx, gy, qx, qy, table, 2);
    NextRow(c, gx, gy, qx, qy, table, 3);
    RowsFill(c, gx, gy, qx, qy, table);
    assert forall k :: 0 <= k < 16 ==> points[k] == table[k];
  }

  lemma FirstRow(c: Curve, gx: nat, gy: nat, qx: nat, qy: nat, points: seq<JPoint>)
    requires |points| == 16 && points[0] == JPoint(0, 0, 0) && points[1] == JPoint(qx, qy, 1)
    requires points[2] == JacobianDouble(c, points[1]) && points[3] == JAdd(c, points[1], points[2])
    ensures Row(c, gx, gy, qx, qy, points, 0)
  {
    hide JAdd, JacobianDouble, Column, Cell;
    ColumnValues(c, qx, qy);
    CellValues(c, gx, gy, qx, qy, 0);
    CellValues(c, gx, gy, qx, qy, 1);
    CellValues(c, gx, gy, qx, qy, 2);
    CellValues(c, gx, gy, qx, qy, 3);
  }

  /** Row i follows from row 0 and its own first entry. */
  lemma NextRow(c: Curve, gx: nat, gy: nat, qx: nat, qy: nat, points: seq<JPoint>, i: nat)
    requires |points| == 16 && 1 <= i < 4 && points[4 * i] == Column(c, gx, gy, i)
    requires points[1] == JPoint(qx, qy, 1)
    requires points[2] == JacobianDouble(c, points[1]) && points[3] == JAdd(c, points[1], points[2])
    requires points[4 * i + 1] == JAdd(c, points[4 * i], points[1])
    requires points[4 * i + 2] == JAdd(c, points[4 * i], points[2])
    requires points[4 * i + 3] == JAdd(c, points[4 * i], points[3])
    ensures Row(c, gx, gy, qx, qy, points, i)
  {
    hide JAdd, JacobianDouble, Column, Cell;
    ColumnValues(c, qx, qy);
    CellValues(c, gx, gy, qx, qy, i);
  }

  /** Row i of the table is filled. */
  ghost predicate Row(c: Curve, gx: nat, gy: nat, qx: nat, qy: nat, points: seq<JPoint>, i: nat)
    requires |points| == 16 && i < 4
  {
    && points[4 * i] == Cell(c, gx, gy, qx, qy, i, 0)
    && points[4 * i + 1] == Cell(c, gx, gy, qx, qy, i, 1)
    && points[4 * i + 2] == Cell(c, gx, gy, qx, qy, i, 2)
    && points[4 * i + 3] == Cell(c, gx, gy, qx, qy, i, 3)
  }

  lemma RowsFill(c: Curve, gx: nat, gy: nat, qx: nat, qy: nat, points: seq<JPoint>)
    requires |points| == 16
    requires Row(c, gx, gy, qx, qy, points, 0) && Row(c, gx, gy, qx, qy, points, 1)
    requires Row(c, gx, gy, qx, qy, points, 2) && Row(c, gx, gy, qx, qy, points, 3)
    ensures forall k :: 0 <= k < 16 ==> points[k] == Cell(c, gx, gy, qx, qy, k / 4, k % 4)
  {
    hide Cell;
    forall k | 0 <= k < 16
      ensures points[k] == Cell(c, gx, gy, qx, qy, k / 4, k % 4)
    {
      assert Row(c, gx, gy, qx, qy, points, k / 4);
      assert k == 4 * (k / 4) + k % 4;
    }
  }

  lemma StoredAtOne(c: Curve, q: Point)
    requires ValidCurve(c) && OnCurve(c, q) && q.Affine?
    ensures Represents(c, JPoint(q.x, q.y, 1), q)
  {
    hide Cong, Cubic;
    CongRefl(1, c.p);
    CongRefl(q.x, c.p);
    CongRefl(q.y, c.p);
    assert q.x * (1 * 1) == q.x && q.y * (1 * 1 * 1) == q.y;
  }

  /** A finite point never equals its double. */
  lemma DoubleDiffers(c: Curve, q: Point)
    requires ValidCurve(c) && OnCurve(c, q) && q.Affine?
    ensures Double(c, q) != q
  {
    hide Cong, Cubic, Double, Add, IsPrime;
    if Cong(2 * q.y, 0, c.p) {
      DoubleVertical(c, q);
    } else {
      var l := AddTangent(c, q);
      if Double(c, q) == q {
        assert l * (q.x - q.x) == 0;
        CongRefl(q.y, c.p);
        CongAdd(q.y, 0 - q.y, q.y, q.y, c.p);
      }
    }
  }

  lemma SmallMultiples(c: Curve, q: Point)
    requires ValidCurve(c) && OnCurve(c, q)
    ensures Multiple(c, 0, q) == Infinity && Multiple(c, 1, q) == q
    ensures Multiple(c, 2, q) == Double(c, q)
    ensures Multiple(c, 3, q) == Add(c, q, Double(c, q))
  {
    hide OnCurve, ValidCurve, Add;
    AddInfinity(c, q);
    assert Multiple(c, 0, q) == Infinity;
    assert Multiple(c, 1, q) == Add(c, Multiple(c, 0, q), q);
    assert Multiple(c, 2, q) == Add(c, Multiple(c, 1, q), q);
    assert Multiple(c, 3, q) == Add(c, Multiple(c, 2, q), q);
    AddCommutes(c, Double(c, q), q);
  }

  /** The first row and column of the table are always right. */
  lemma ColumnRepresents(c: Curve, q: Point, k: nat)
    requires ValidCurve(c) && OnCurve(c, q) && q.Affine? && k <= 3
    ensures Represents(c, Column(c, q.x, q.y, k), Multiple(c, k, q))
  {
    SmallMultiples(c, q);
    hide JAdd, JacobianDouble, Add, Multiple, IsPrime, Cong, Cubic;
    StoredAtOne(c, q);
    if k >= 2 {
      DoubleRefines(c, JPoint(q.x, q.y, 1), q);
    }
    if k == 3 {
      DoubleDiffers(c, q);
      AddRefinesIff(c, JPoint(q.x, q.y, 1), q, JacobianDouble(c, JPoint(q.x, q.y, 1)), Double(c, q));
    }
  }

  /** What entry 4i + j stands for, whatever the key. */
  ghost function TableEntry(c: Curve, g: Point, q: Point, i: nat, j: nat): (r: Point)
    requires ValidCurve(c) && OnCurve(c, g) && OnCurve(c, q)
    ensures OnCurve(c, r)
  {
    ChordOnlyAdd(c, Multiple(c, i, g), Multiple(c, j, q))
  }

  lemma CellRepresents(c: Curve, g: Point, q: Point, i: nat, j: nat)
    requires ValidCurve(c) && OnCurve(c, g) && OnCurve(c, q) && g.Affine? && q.Affine? && i <= 3 && j <= 3
    ensures Represents(c, Cell(c, g.x, g.y, q.x, q.y, i, j), TableEntry(c, g, q, i, j))
  {
    ColumnRepresents(c, g, i);
    ColumnRepresents(c, q, j);
    SmallMultiples(c, g);
    SmallMultiples(c, q);
    AddInfinity(c, Multiple(c, i, g));
    AddInfinity(c, Multiple(c, j, q));
    hide JAdd, JacobianDouble, Add, Multiple, IsPrime, Cong, Cubic, Column, Represents, OnCurve, ValidCurve;
    if i > 0 && j > 0 {
      AddRefinesChordOnly(c, Column(c, g.x, g.y, i), Multiple(c, i, g), Column(c, q.x, q.y, j), Multiple(c, j, q));
    }
  }

  /** A cell off the first row and column is right exactly when its two multiples can be added. */
  lemma CellRepresentsIff(c: Curve, g: Point, q: Point, i: nat, j: nat)
    requires ValidCurve(c) && OnCurve(c, g) && OnCurve(c, q) && g.Affine? && q.Affine? && i <= 3 && j <= 3
    ensures Represents(c, Cell(c, g.x, g.y, q.x, q.y, i, j), Entry(c, g, q, i, j))
       <==> i == 0 || j == 0 || Addable(c, Multiple(c, i, g), Multiple(c, j, q))
  {
    ColumnRepresents(c, g, i);
    ColumnRepresents(c, q, j);
    SmallMultiples(c, g);
    SmallMultiples(c, q);
    AddInfinity(c, Multiple(c, i, g));
    AddInfinity(c, Multiple(c, j, q));
    hide JAdd, JacobianDouble, Add, Multiple, IsPrime, Cong, Cubic, Column, Represents, OnCurve, ValidCurve;
    if i > 0 && j > 0 {
      AddRefinesIff(c, Column(c, g.x, g.y, i), Multiple(c, i, g), Column(c, q.x, q.y, j), Multiple(c, j, q));
    }
  }

  /** The table that preComputeJacobianPoints fills for the key q. */
  ghost predicate TableOf(c: Curve, g: Point, q: Point, points: seq<JPoint>)
    requires g.Affine? && q.Affine? && |points| == 16
  {
    forall k :: 0 <= k < 16 ==> points[k] == Cell(c, g.x, g.y, q.x, q.y, k / 4, k % 4)
  }

  /** Whether the whole table is right. */
  ghost predicate TableRight(c: Curve, g: Point, q: Point, points: seq<JPoint>)
    requires ValidCurve(c) && OnCurve(c, g) && OnCurve(c, q) && |points| == 16
  {
    forall k :: 0 <= k < 16 ==> Represents(c, points[k], Entry(c, g, q, k / 4, k % 4))
  }

  /** No non-trivial multiple up to 3 of one base equals one of the other, unless the two cancel. */
  ghost predicate TableSafe(c: Curve, g: Point, q: Point)
    requires ValidCurve(c) && OnCurve(c, g) && OnCurve(c, q)
  {
    forall i: nat, j: nat :: 1 <= i <= 3 && 1 <= j <= 3 ==> Addable(c, Multiple(c, i, g), Multiple(c, j, q))
  }

  /** The table is right exactly for the safe keys. */
  lemma TableRightIff(c: Curve, g: Point, q: Point, points: seq<JPoint>)
    requires ValidCurve(c) && OnCurve(c, g) && OnCurve(c, q) && g.Affine? && q.Affine? && |points| == 16
    requires TableOf(c, g, q, points)
    ensures TableRight(c, g, q, points) <==> TableSafe(c, g, q)
  {
    hide Represents, Entry, Cell, Addable, Multiple, OnCurve, ValidCurve;
    if TableSafe(c, g, q) {
      forall k | 0 <= k < 16
        ensures Represents(c, points[k], Entry(c, g, q, k / 4, k % 4))
      {
        CellRepresentsIff(c, g, q, k / 4, k % 4);
      }
    }
    if TableRight(c, g, q, points) {
      forall i: nat, j: nat | 1 <= i <= 3 && 1 <= j <= 3
        ensures Addable(c, Multiple(c, i, g), Multiple(c, j, q))
      {
        var k := 4 * i + j;
        assert k / 4 == i && k % 4 == j;
        assert Represents(c, points[k], Entry(c, g, q, k / 4, k % 4));
        CellRepresentsIff(c, g, q, i, j);
      }
    }
  }

  /** The key G itself is not safe: the entry for G + G stands for infinity. */
  lemma BaseKeyBreaksTable(c: Curve, g: Point)
    requires ValidCurve(c) && OnCurve(c, g) && g.Affine? && !Cong(2 * g.y, 0, c.p)
    ensures !TableSafe(c, g, g)
    ensures Represents(c, Cell(c, g.x, g.y, g.x, g.y, 1, 1), Infinity)
    ensures Entry(c, g, g, 1, 1).Affine?
  {
    SmallMultiples(c, g);
    var l := AddTangent(c, g);
    ColumnRepresents(c, g, 1);
    hide JAdd, JacobianDouble, Add, Multiple, IsPrime, Cubic, Column;
    assert !Addable(c, Multiple(c, 1, g), Multiple(c, 1, g));
    var s := Column(c, g.x, g.y, 1);
    AddSameXVanishes(c, s, g.x, g.y, s, g.y);
  }

  // ---------------------------------------------------------------------------------------------
  // The loop over the group

  /** The accumulator after all 2-bit digits of u and v, most significant first. */
  ghost function WindowLadder(c: Curve, g: Point, q: Point, u: nat, v: nat): (r: Point)
    requires ValidCurve(c) && OnCurve(c, g) && OnCurve(c, q)
    ensures OnCurve(c, r)
    decreases u + v
  {
    if u == 0 && v == 0 then Infinity
    else Add(c, Double(c, Double(c, WindowLadder(c, g, q, u / 4, v / 4))), Entry(c, g, q, u % 4, v % 4))
  }

  /** The accumulator that the loop really holds after those digits. */
  ghost function CodeLadder(c: Curve, g: Point, q: Point, u: nat, v: nat): (r: Point)
    requires ValidCurve(c) && OnCurve(c, g) && OnCurve(c, q)
    ensures OnCurve(c, r)
    decreases u + v
  {
    if u == 0 && v == 0 then Infinity
    else ChordOnlyAdd(c, Double(c, Double(c, CodeLadder(c, g, q, u / 4, v / 4))),
                      TableEntry(c, g, q, u % 4, v % 4))
  }

  /** Every addition of the run is one that jAdd performs correctly. */
  ghost predicate WindowSafe(c: Curve, g: Point, q: Point, u: nat, v: nat)
    requires ValidCurve(c) && OnCurve(c, g) && OnCurve(c, q)
    decreases u + v
  {
    (u == 0 && v == 0) ||
    (&& WindowSafe(c, g, q, u / 4, v / 4)
     && Addable(c, Double(c, Double(c, WindowLadder(c, g, q, u / 4, v / 4))), Entry(c, g, q, u % 4, v % 4)))
  }

  /** The accumulator is right after every digit of the run. */
  ghost predicate RunRight(c: Curve, g: Point, q: Point, u: nat, v: nat)
    requires ValidCurve(c) && OnCurve(c, g) && OnCurve(c, q)
    decreases u + v
  {
    && CodeLadder(c, g, q, u, v) == WindowLadder(c, g, q, u, v)
    && ((u == 0 && v == 0) || RunRight(c, g, q, u / 4, v / 4))
  }

  /** With a safe key, every accumulator of a run is right exactly when every addition of the run is safe. */
  lemma {:induction false} RunRightIff(c: Curve, g: Point, q: Point, u: nat, v: nat)
    requires ValidCurve(c) && OnCurve(c, g) && OnCurve(c, q) && TableSafe(c, g, q)
    ensures RunRight(c, g, q, u, v) <==> WindowSafe(c, g, q, u, v)
    decreases u + v
  {
    hide OnCurve, ValidCurve, Add, Double, Entry, TableEntry, TableSafe, Addable, ChordOnlyAdd;
    if u > 0 || v > 0 {
      RunRightIff(c, g, q, u / 4, v / 4);
      SafeEntry(c, g, q, u % 4, v % 4);
      ChordOnlyIff(c, Double(c, Double(c, WindowLadder(c, g, q, u / 4, v / 4))), Entry(c, g, q, u % 4, v % 4));
    }
  }

  lemma SafeEntry(c: Curve, g: Point, q: Point, i: nat, j: nat)
    requires ValidCurve(c) && OnCurve(c, g) && OnCurve(c, q) && TableSafe(c, g, q) && i <= 3 && j <= 3
    ensures TableEntry(c, g, q, i, j) == Entry(c, g, q, i, j)
  {
    SmallMultiples(c, g);
    SmallMultiples(c, q);
    hide OnCurve, ValidCurve, Add, Multiple;
    ChordOnlyIff(c, Multiple(c, i, g), Multiple(c, j, q));
  }

  /** The loop computes u * G + v * Q. */
  lemma {:induction false} WindowIsLinear(c: Curve, g: Point, q: Point, u: nat, v: nat)
    requires ValidCurve(c) && Associative(c) && OnCurve(c, g) && OnCurve(c, q)
    ensures WindowLadder(c, g, q, u, v) == Add(c, Multiple(c, u, g), Multiple(c, v, q))
    decreases u + v
  {
    hide OnCurve, ValidCurve, Associative, Add, Double;
    if u == 0 && v == 0 {
      SmallMultiples(c, g);
      SmallMultiples(c, q);
      AddInfinity(c, g);
      AddInfinity(c, Infinity);
    } else {
      var u', v' := u / 4, v / 4;
      WindowIsLinear(c, g, q, u', v');
      DoubleIsLinear(c, g, q, u', v');
      LinearStep(c, g, q, 2 * u', 2 * v', u % 4, v % 4);
      assert 2 * (2 * u') + u % 4 == u && 2 * (2 * v') + v % 4 == v;
    }
  }

  lemma DoubleIsLinear(c: Curve, g: Point, q: Point, u: nat, v: nat)
    requires ValidCurve(c) && Associative(c) && OnCurve(c, g) && OnCurve(c, q)
    ensures Double(c, Add(c, Multiple(c, u, g), Multiple(c, v, q)))
         == Add(c, Multiple(c, 2 * u, g), Multiple(c, 2 * v, q))
  {
    hide OnCurve, ValidCurve, Associative, Add, Multiple;
    var ug, vq := Multiple(c, u, g), Multiple(c, v, q);
    Interchange(c, ug, vq, ug, vq);
    MultipleAdd(c, u, u, g);
    MultipleAdd(c, v, v, q);
    assert 2 * u == u + u && 2 * v == v + v;
  }

  /** With the key G and both scalars 1, the loop ends at infinity instead of 2 * G. */
  lemma BaseKeyBreaksRun(c: Curve, g: Point)
    requires ValidCurve(c) && OnCurve(c, g) && g.Affine? && !Cong(2 * g.y, 0, c.p)
    ensures CodeLadder(c, g, g, 1, 1) == Infinity
    ensures Add(c, Multiple(c, 1, g), Multiple(c, 1, g)).Affine?
  {
    SmallMultiples(c, g);
    var l := AddTangent(c, g);
    hide Add, Multiple, IsPrime, Cubic, Cong, OnCurve, ValidCurve;
    DoubleInfinity(c);
    AddInfinity(c, Infinity);
    assert CodeLadder(c, g, g, 0, 0) == Infinity;
    assert TableEntry(c, g, g, 1, 1) == Infinity;
  }

  // ---------------------------------------------------------------------------------------------
  // The digits

  const MOST_SIGNIFICANT: nat := 0xC000000000000000_0000000000000000_0000000000000000_0000000000000000

  function Digits(u: nat, v: nat): (r: nat) {
    BitOr(Shr(252, BitAnd(u, MOST_SIGNIFICANT)), Shr(254, BitAnd(v, MOST_SIGNIFICANT)))
  }

  /** Masking with the two top bits of a (k+2)-bit number d * 2^k + r. */
  lemma {:induction false} AndTopTwo(x: nat, k: nat, d: nat, r: nat)
    requires x == d * Pow2(k) + r && r < Pow2(k) && d < 4
    ensures BitAnd(x, 3 * Pow2(k)) == d * Pow2(k)
  {
    if k == 0 {
      AndThree(d);
    } else {
      var h := d * Pow2(k - 1);
      assert d * Pow2(k) == 2 * h;
      assert x / 2 == h + r / 2;
      AndTopTwo(x / 2, k - 1, d, r / 2);
    }
  }

  lemma AndThree(x: nat)
    requires x < 4
    ensures BitAnd(x, 3) == x
  {
    if x >= 2 {
      assert BitAnd(x / 2, 1) == 1;
    }
  }

  lemma MaskWidth()
    ensures MOST_SIGNIFICANT == 3 * Pow2(254) && R == 4 * Pow2(254)
  {
    WordValue();
    WordWidth();
    assert Pow2(256) == 2 * Pow2(255) && Pow2(255) == 2 * Pow2(254);
  }

  lemma ShrMultiple(d: nat, k: nat, e: nat)
    ensures Shr(k, d * Pow2(k + e)) == d * Pow2(e)
  {
    hide Pow2;
    Pow2Add(k, e);
    Regroup(d, Pow2(e), Pow2(k));
    DivModUnique(d * Pow2(k + e), d * Pow2(e), 0, Pow2(k));
  }

  lemma TopQuotient(u: nat, m: nat, d: nat, r: nat)
    requires m > 0 && u < 4 * m && d == u / m && r == u % m
    ensures u == d * m + r && d < 4
  {
    MulLess(d, 4, m);
  }

  /** The two top bits of a word, still in place. */
  lemma TopDigit(u: nat)
    requires u < R
    ensures Shr(254, u) < 4 && BitAnd(u, MOST_SIGNIFICANT) == Shr(254, u) * Pow2(254)
  {
    hide MOST_SIGNIFICANT, BitAnd, Pow2;
    MaskWidth();
    var m := Pow2(254);
    var d, r := u / m, u % m;
    TopQuotient(u, m, d, r);
    AndTopTwo(u, 254, d, r);
  }

  lemma SmallPowers()
    ensures Pow2(0) == 1 && Pow2(2) == 4
  {
  }

  /** The index is 4 times the top digit of u plus the top digit of v. */
  lemma DigitsSpec(u: nat, v: nat)
    requires u < R && v < R
    ensures Shr(254, u) < 4 && Shr(254, v) < 4
    ensures Digits(u, v) == 4 * Shr(254, u) + Shr(254, v)
  {
    hide MOST_SIGNIFICANT, BitAnd, BitOr, Pow2, Shr;
    var du, dv := Shr(254, u), Shr(254, v);
    TopDigit(u);
    TopDigit(v);
    ShrMultiple(du, 252, 2);
    ShrMultiple(dv, 254, 0);
    SmallPowers();
    OrDisjoint(dv, du, 2);
    OrCommutes(du * 4, dv);
  }

  /** What is left of u, shifted to the top of a word, when b digits remain. */
  ghost function Remaining(u: nat, b: nat): (r: nat)
    requires b <= 128
  {
    (u % Pow2(2 * b)) * Pow2(256 - 2 * b)
  }

  lemma RemainingStart(u: nat)
    requires u < R
    ensures Remaining(u, 128) == u && Shr(256, u) == 0
  {
    ShrEnds(u);
    hide Pow2, Shr;
    WordWidth();
    SmallPowers();
    DivModUnique(u, 0, u, R);
  }

  /** One digit: what the mask reads is the next base-4 digit of u, and the shift drops it. */
  lemma RemainingStep(u: nat, b: nat)
    requires 0 < b <= 128
    ensures Remaining(u, b) < R
    ensures Shr(254, Remaining(u, b)) == Shr(2 * b - 2, u) % 4
    ensures Shr(2 * b - 2, u) / 4 == Shr(2 * b, u)
    ensures WMul(Remaining(u, b), 4) == Remaining(u, b - 1)
  {
    hide WMul, Pow2, Shr;
    var m, f := Pow2(2 * b - 2), Pow2(256 - 2 * b);
    PowersAround(b);
    DigitSplit(u, m);
    var d, l := (u / m) % 4, u % m;
    ShiftDigits(d, l, m, f);
    ShrIs(254, Remaining(u, b));
    ShrIs(2 * b - 2, u);
    ShrIs(2 * b, u);
    MulMono(d, 3, m * f);
    DropDigit(d, m * f, l * f);
  }

  lemma ShrIs(k: nat, x: nat)
    ensures Shr(k, x) == x / Pow2(k)
  {
  }

  /** The digit d above the rest l < m, all shifted up by f. */
  lemma ShiftDigits(d: nat, l: nat, m: nat, f: nat)
    requires l < m && f > 0
    ensures (d * m + l) * f == d * (m * f) + l * f
    ensures 0 <= l * f < m * f && (l * f) * 4 == l * (4 * f)
    ensures ((d * m + l) * f) / (m * f) == d
  {
    Regroup(d, m, f);
    assert (d * m + l) * f == (d * m) * f + l * f;
    assert l * f + f == (l + 1) * f;
    MulMono(l + 1, m, f);
    MulMono(0, l, f);
    Regroup(l, f, 4);
    DivModUnique((d * m + l) * f, d, l * f, m * f);
  }

  /** Around a window: 2^(2b) is 4 times 2^(2b-2), and the powers complete to 2^254 and 2^256. */
  lemma PowersAround(b: nat)
    requires 0 < b <= 128
    ensures Pow2(2 * b) == 4 * Pow2(2 * b - 2)
    ensures Pow2(2 * b - 2) * Pow2(256 - 2 * b) == Pow2(254)
    ensures Pow2(256 - 2 * (b - 1)) == 4 * Pow2(256 - 2 * b)
    ensures R == 4 * Pow2(254)
  {
    MaskWidth();
    Pow2Add(2 * b - 2, 256 - 2 * b);
    assert Pow2(2 * b) == 2 * Pow2(2 * b - 1) && Pow2(2 * b - 1) == 2 * Pow2(2 * b - 2);
    assert Pow2(258 - 2 * b) == 2 * Pow2(257 - 2 * b) && Pow2(257 - 2 * b) == 2 * Pow2(256 - 2 * b);
  }

  lemma DigitSplit(u: nat, m: nat)
    requires m > 0
    ensures u % (4 * m) == ((u / m) % 4) * m + u % m
    ensures (u / m) / 4 == u / (4 * m)
  {
    var q, l := u / m, u % m;
    var h, d := q / 4, q % 4;
    assert u == q * m + l && q == 4 * h + d;
    assert u == h * (4 * m) + (d * m + l);
    MulMono(d, 3, m);
    assert d * m >= 0;
    DivModUnique(u, h, d * m + l, 4 * m);
  }

  lemma DropDigit(d: nat, t: nat, rest: nat)
    requires d < 4 && R == 4 * t && rest < t
    ensures WMul(d * t + rest, 4) == rest * 4
  {
    assert (d * t + rest) * 4 == d * (4 * t) + rest * 4;
    DivModUnique((d * t + rest) * 4, d, rest * 4, R);
  }

  // ---------------------------------------------------------------------------------------------
  // The loop

  lemma EntryZero(c: Curve, g: Point, q: Point)
    requires ValidCurve(c) && OnCurve(c, g) && OnCurve(c, q)
    ensures TableEntry(c, g, q, 0, 0) == Infinity
  {
    SmallMultiples(c, g);
    SmallMultiples(c, q);
    AddInfinity(c, Infinity);
  }

  lemma AddNothing(c: Curve, q: Point)
    requires ValidCurve(c) && OnCurve(c, q)
    ensures OnCurve(c, Infinity) && ChordOnlyAdd(c, q, Infinity) == q
  {
    AddInfinity(c, q);
  }

  /** One more digit of each scalar is two doublings and one addition. */
  lemma WindowStep(c: Curve, g: Point, q: Point, u: nat, v: nat, b: nat)
    requires ValidCurve(c) && OnCurve(c, g) && OnCurve(c, q) && 0 < b <= 128
    ensures CodeLadder(c, g, q, Shr(2 * b - 2, u), Shr(2 * b - 2, v))
         == ChordOnlyAdd(c, Double(c, Double(c, CodeLadder(c, g, q, Shr(2 * b, u), Shr(2 * b, v)))),
                         TableEntry(c, g, q, Shr(2 * b - 2, u) % 4, Shr(2 * b - 2, v) % 4))
  {
    hide OnCurve, ValidCurve, ChordOnlyAdd, Shr, TableEntry, Double, Remaining, WMul;
    RemainingStep(u, b);
    RemainingStep(v, b);
    EntryZero(c, g, q);
    DoubleInfinity(c);
    AddNothing(c, Infinity);
  }

  /** Doubling twice, skipped at infinity. */
  lemma DoubleTwice(c: Curve, s: JPoint, q: Point)
    requires ValidCurve(c) && OnCurve(c, q) && Represents(c, s, q)
    ensures Represents(c, if s.z > 0 then JacobianDouble(c, JacobianDouble(c, s)) else s, Double(c, Double(c, q)))
  {
    RepresentsFinite(c, s, q);
    DoubleInfinity(c);
    hide Represents, Double, JacobianDouble, OnCurve, ValidCurve;
    if s.z > 0 {
      DoubleRefines(c, s, q);
      DoubleRefines(c, JacobianDouble(c, s), Double(c, q));
    }
  }

  lemma TableAt(c: Curve, g: Point, q: Point, points: seq<JPoint>, i: nat, j: nat)
    requires ValidCurve(c) && OnCurve(c, g) && OnCurve(c, q) && g.Affine? && q.Affine?
    requires |points| == 16 && TableOf(c, g, q, points) && i < 4 && j < 4
    ensures Represents(c, points[4 * i + j], TableEntry(c, g, q, i, j))
  {
    hide Represents, TableEntry, OnCurve, ValidCurve, Cell;
    var k := 4 * i + j;
    assert k / 4 == i && k % 4 == j;
    CellRepresents(c, g, q, i, j);
  }

  /** One round of the loop: index is 4i + j for the digits i of u and j of v. */
  lemma WindowRound(c: Curve, g: Point, q: Point, points: seq<JPoint>, u: nat, v: nat, b: nat, s: JPoint, index: nat)
    requires ValidCurve(c) && OnCurve(c, g) && OnCurve(c, q) && g.Affine? && q.Affine?
    requires |points| == 16 && TableOf(c, g, q, points) && 0 < b <= 128
    requires Represents(c, s, CodeLadder(c, g, q, Shr(2 * b, u), Shr(2 * b, v)))
    requires index == 4 * (Shr(2 * b - 2, u) % 4) + Shr(2 * b - 2, v) % 4
    ensures index < 16
    ensures var s' := if s.z > 0 then JacobianDouble(c, JacobianDouble(c, s)) else s;
      Represents(c, if index > 0 then JAdd(c, s', points[index]) else s',
                 CodeLadder(c, g, q, Shr(2 * b - 2, u), Shr(2 * b - 2, v)))
  {
    hide *;
    var acc := CodeLadder(c, g, q, Shr(2 * b, u), Shr(2 * b, v));
    var i, j := Shr(2 * b - 2, u) % 4, Shr(2 * b - 2, v) % 4;
    DoubleTwice(c, s, acc);
    var s' := if s.z > 0 then JacobianDouble(c, JacobianDouble(c, s)) else s;
    WindowStep(c, g, q, u, v, b);
    var dd := Double(c, Double(c, acc));
    if index > 0 {
      TableAt(c, g, q, points, i, j);
      AddRefinesChordOnly(c, s', dd, points[index], TableEntry(c, g, q, i, j));
    } else {
      EntryZero(c, g, q);
      AddNothing(c, dd);
    }
  }

  /** What a round makes of the accumulator. */
  function RoundResult(c: Curve, s: JPoint, index: nat, entry: JPoint): (r: JPoint) {
    var s' := if s.z > 0 then JacobianDouble(c, JacobianDouble(c, s)) else s;
    if index > 0 then JAdd(c, s', entry) else s'
  }

  /** The doublings and the addition of one round. */
  method Round(c: Curve, s: JPoint, index: nat, entry: JPoint) returns (r: JPoint)
    ensures r == RoundResult(c, s, index, entry)
  {
    hide JacobianDouble, JAdd;
    r := s;
    if r.z > 0 {
      r := JacobianDouble(c, r);
      r := JacobianDouble(c, r);
    }
    if index > 0 {
      r := JAdd(c, r, entry);
    }
  }

  /** The loop invariant: the accumulator stands for the digits consumed. */
  ghost predicate LoopState(c: Curve, g: Point, q: Point, u1: nat, u2: nat, bits: nat, s: JPoint)
    requires ValidCurve(c) && OnCurve(c, g) && OnCurve(c, q) && bits <= 128
  {
    Represents(c, s, CodeLadder(c, g, q, Shr(2 * bits, u1), Shr(2 * bits, u2)))
  }

  lemma LoopStarts(c: Curve, g: Point, q: Point, u1: nat, u2: nat)
    requires ValidCurve(c) && OnCurve(c, g) && OnCurve(c, q) && u1 < R && u2 < R
    ensures LoopState(c, g, q, u1, u2, 128, JPoint(0, 0, 0))
  {
    hide Remaining, Shr, Represents, CodeLadder, ValidCurve, OnCurve;
    RemainingStart(u1);
    RemainingStart(u2);
    StartsAtInfinity(c, g, q);
  }

  /** The index read from the shifted scalars, and the scalars after the shift. */
  lemma DigitsRead(u1: nat, u2: nat, bits: nat)
    requires 0 < bits <= 128
    ensures Digits(Remaining(u1, bits), Remaining(u2, bits)) < 16
    ensures Digits(Remaining(u1, bits), Remaining(u2, bits))
         == 4 * (Shr(2 * bits - 2, u1) % 4) + Shr(2 * bits - 2, u2) % 4
    ensures WMul(Remaining(u1, bits), 4) == Remaining(u1, bits - 1)
    ensures WMul(Remaining(u2, bits), 4) == Remaining(u2, bits - 1)
  {
    hide Remaining, Shr, Digits, WMul;
    RemainingStep(u1, bits);
    RemainingStep(u2, bits);
    DigitsSpec(Remaining(u1, bits), Remaining(u2, bits));
  }

  lemma LoopRound(c: Curve, g: Point, q: Point, points: seq<JPoint>, u1: nat, u2: nat, bits: nat,
                  s: JPoint, index: nat)
    requires ValidCurve(c) && OnCurve(c, g) && OnCurve(c, q) && g.Affine? && q.Affine?
    requires |points| == 16 && TableOf(c, g, q, points) && 0 < bits <= 128 && index < 16
    requires index == 4 * (Shr(2 * bits - 2, u1) % 4) + Shr(2 * bits - 2, u2) % 4
    requires LoopState(c, g, q, u1, u2, bits, s)
    ensures LoopState(c, g, q, u1, u2, bits - 1, RoundResult(c, s, index, points[index]))
  {
    hide Shr, Represents, CodeLadder, ValidCurve, OnCurve, TableOf, JacobianDouble, JAdd;
    WindowRound(c, g, q, points, u1, u2, bits, s, index);
    assert 2 * (bits - 1) == 2 * bits - 2;
  }

  /** The scalars are shifted, and on the table of the key the accumulator is what it should be. */
  ghost predicate LoopInv(c: Curve, g: Point, q: Point, points: seq<JPoint>, u1: nat, u2: nat, bits: nat,
                          a: nat, b: nat, s: JPoint)
    requires ValidCurve(c) && OnCurve(c, g) && OnCurve(c, q) && g.Affine? && q.Affine?
    requires |points| == 16 && bits <= 128
  {
    && a == Remaining(u1, bits) && b == Remaining(u2, bits)
    && (TableOf(c, g, q, points) ==> LoopState(c, g, q, u1, u2, bits, s))
  }

  lemma LoopInvStarts(c: Curve, g: Point, q: Point, points: seq<JPoint>, u1: nat, u2: nat)
    requires ValidCurve(c) && OnCurve(c, g) && OnCurve(c, q) && g.Affine? && q.Affine?
    requires |points| == 16 && u1 < R && u2 < R
    ensures LoopInv(c, g, q, points, u1, u2, 128, u1, u2, JPoint(0, 0, 0))
  {
    hide TableOf, LoopState, Remaining, ValidCurve, OnCurve, Shr;
    LoopStarts(c, g, q, u1, u2);
    RemainingStart(u1);
    RemainingStart(u2);
  }

  lemma LoopInvKept(c: Curve, g: Point, q: Point, points: seq<JPoint>, u1: nat, u2: nat, bits: nat,
                    a: nat, b: nat, s: JPoint)
    requires ValidCurve(c) && OnCurve(c, g) && OnCurve(c, q) && g.Affine? && q.Affine?
    requires |points| == 16 && 0 < bits <= 128 && LoopInv(c, g, q, points, u1, u2, bits, a, b, s)
    ensures Digits(a, b) < 16
    ensures LoopInv(c, g, q, points, u1, u2, bits - 1, WMul(a, 4), WMul(b, 4),
                    RoundResult(c, s, Digits(a, b), points[Digits(a, b)]))
  {
    hide TableOf, LoopState, Remaining, ValidCurve, OnCurve, Shr, Digits, WMul, RoundResult;
    DigitsRead(u1, u2, bits);
    if TableOf(c, g, q, points) {
      LoopRound(c, g, q, points, u1, u2, bits, s, Digits(a, b));
    }
  }

  /** The coordinates of a point, (0, 0) for infinity. */
  ghost function Coordinates(q: Point): (r: (nat, nat)) {
    if q.Infinity? then (0, 0) else (q.x, q.y)
  }

  lemma LoopEnds(c: Curve, g: Point, q: Point, u1: nat, u2: nat, s: JPoint)
    requires ValidCurve(c) && OnCurve(c, g) && OnCurve(c, q) && LoopState(c, g, q, u1, u2, 0, s) && c.p >= 2
    ensures AffineFromJacobian(c, s) == Coordinates(CodeLadder(c, g, q, u1, u2))
  {
    hide Represents, CodeLadder, ValidCurve, OnCurve, AffineFromJacobian, Shr;
    ShrWhole(u1);
    ShrWhole(u2);
    AffineCorrect(c, s, CodeLadder(c, g, q, u1, u2));
  }

  /** On a safe run with a safe key the accumulator ends at u1 * G + u2 * Q. */
  lemma SafeRunIsLinear(c: Curve, g: Point, q: Point, u1: nat, u2: nat)
    requires ValidCurve(c) && Associative(c) && OnCurve(c, g) && OnCurve(c, q)
    requires TableSafe(c, g, q) && WindowSafe(c, g, q, u1, u2)
    ensures CodeLadder(c, g, q, u1, u2) == Add(c, Multiple(c, u1, g), Multiple(c, u2, q))
  {
    hide OnCurve, ValidCurve, Associative, Add, Multiple, TableSafe, WindowSafe, CodeLadder, WindowLadder;
    RunRightIff(c, g, q, u1, u2);
    WindowIsLinear(c, g, q, u1, u2);
  }

  lemma LoopInvEnds(c: Curve, g: Point, q: Point, points: seq<JPoint>, u1: nat, u2: nat, a: nat, b: nat, s: JPoint)
    requires ValidCurve(c) && OnCurve(c, g) && OnCurve(c, q) && g.Affine? && q.Affine? && c.p >= 2
    requires |points| == 16 && LoopInv(c, g, q, points, u1, u2, 0, a, b, s)
    ensures TableOf(c, g, q, points) ==> AffineFromJacobian(c, s) == Coordinates(CodeLadder(c, g, q, u1, u2))
    ensures TableOf(c, g, q, points) && Associative(c) && TableSafe(c, g, q) && WindowSafe(c, g, q, u1, u2) ==>
              AffineFromJacobian(c, s) == Coordinates(Add(c, Multiple(c, u1, g), Multiple(c, u2, q)))
  {
    hide TableOf, LoopState, Remaining, ValidCurve, OnCurve, AffineFromJacobian, Coordinates, CodeLadder, Add,
      Multiple, Associative, TableSafe, WindowSafe;
    if TableOf(c, g, q, points) {
      LoopEnds(c, g, q, u1, u2, s);
    }
    if Associative(c) && TableSafe(c, g, q) && WindowSafe(c, g, q, u1, u2) {
      SafeRunIsLinear(c, g, q, u1, u2);
    }
  }

  /** The loop: from the start to no digit left. */
  method ConsumeDigits(c: Curve, ghost g: Point, ghost q: Point, points: array<JPoint>, u1: nat, u2: nat)
    returns (s: JPoint, ghost a': nat, ghost b': nat)
    requires ValidCurve(c) && OnCurve(c, g) && OnCurve(c, q) && g.Affine? && q.Affine?
    requires points.Length == 16 && u1 < R && u2 < R
    ensures LoopInv(c, g, q, points[..], u1, u2, 0, a', b', s)
  {
    hide *;
    ghost var table := points[..];
    s := JPoint(0, 0, 0);
    var bits := 128;
    var a, b := u1, u2;
    LoopInvStarts(c, g, q, table, u1, u2);
    while bits > 0
      invariant 0 <= bits <= 128
      invariant LoopInv(c, g, q, table, u1, u2, bits, a, b, s)
    {
      LoopInvKept(c, g, q, table, u1, u2, bits, a, b, s);
      var index := Digits(a, b);
      s := Round(c, s, index, points[index]);
      a := WMul(a, 4);
      b := WMul(b, 4);
      bits := bits - 1;
    }
    a', b' := a, b;
  }

  /**
   * shamirMultJacobian: on the table of a key, the coordinates of CodeLadder for all scalars;
   * on safe runs these are the coordinates of u1 * G + u2 * Q.
   */
  method ShamirMultJacobian(c: Curve, ghost g: Point, ghost q: Point, points: array<JPoint>, u1: nat, u2: nat)
    returns (x: nat, y: nat)
    requires ValidCurve(c) && OnCurve(c, g) && OnCurve(c, q) && g.Affine? && q.Affine?
    requires points.Length == 16 && u1 < R && u2 < R
    ensures TableOf(c, g, q, points[..]) ==> (x, y) == Coordinates(CodeLadder(c, g, q, u1, u2))
    ensures TableOf(c, g, q, points[..]) && Associative(c) && TableSafe(c, g, q) && WindowSafe(c, g, q, u1, u2) ==>
              (x, y) == Coordinates(Add(c, Multiple(c, u1, g), Multiple(c, u2, q)))
  {
    FieldSize(c);
    hide *;
    ghost var a, b;
    var s;
    s, a, b := ConsumeDigits(c, g, q, points, u1, u2);
    LoopInvEnds(c, g, q, points[..], u1, u2, a, b, s);
    var affine := AffineFromJacobian(c, s);
    x, y := affine.0, affine.1;
  }

  lemma StartsAtInfinity(c: Curve, g: Point, q: Point)
    requires ValidCurve(c) && OnCurve(c, g) && OnCurve(c, q)
    ensures Represents(c, JPoint(0, 0, 0), CodeLadder(c, g, q, 0, 0))
  {
  }

}
