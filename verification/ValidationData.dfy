/**
 * Packed validation windows: the ERC-4337 helpers of P256SmartAccountFactory_Flattened.sol.
 */
module ValidationData {
  import opened Words

  const TIME: nat := 0x1_0000_0000_0000

  const ADDRESS: nat := 0x1_0000000000_0000000000_0000000000_0000000000

  /** Who aggregates the signature (1 for failure), and the first and last valid timestamps. */
  datatype Window = Window(aggregator: nat, validAfter: nat, validUntil: nat)

  function Parse(data: nat): (r: Window) {
    var until := Shr(160, data) % TIME;
    Window(data % ADDRESS, Shr(208, data) % TIME, if until == 0 then TIME - 1 else until)
  }

  function Intersect(account: nat, paymaster: nat): (r: Window) {
    var a, b := Parse(account), Parse(paymaster);
    Window(if a.aggregator == 0 then b.aggregator else a.aggregator,
           if a.validAfter < b.validAfter then b.validAfter else a.validAfter,
           if a.validUntil > b.validUntil then b.validUntil else a.validUntil)
  }

  function PackWindow(w: Window): (r: nat) {
    BitOr(BitOr(w.aggregator, w.validUntil * Pow2(160)), w.validAfter * Pow2(208))
  }

  function Pack(sigFailed: bool, validUntil: nat, validAfter: nat): (r: nat) {
    BitOr(BitOr(if sigFailed then 1 else 0, validUntil * Pow2(160)), validAfter * Pow2(208))
  }

  predicate Allows(w: Window, time: nat) {
    w.validAfter <= time <= w.validUntil
  }

  /** The widths of the three fields. */
  lemma FieldWidths()
    ensures Pow2(160) == ADDRESS && Pow2(48) == TIME && Pow2(208) == ADDRESS * TIME
  {
    Pow2Square(1, 2);
    Pow2Square(2, 4);
    Pow2Square(4, 0x10);
    Pow2Square(8, 0x100);
    Pow2Square(16, 0x10000);
    Pow2Square(32, 0x100000000);
    Pow2Square(64, 0x10000000000000000);
    Pow2Add(32, 16);
    Pow2Add(128, 32);
    Pow2Add(160, 48);
  }

  /** The fields do not overlap, so packing is a sum. */
  lemma PackIsSum(aggregator: nat, until: nat, after: nat)
    requires aggregator < ADDRESS && until < TIME
    ensures BitOr(BitOr(aggregator, until * Pow2(160)), after * Pow2(208))
         == aggregator + until * ADDRESS + after * (ADDRESS * TIME)
    ensures PackWindow(Window(aggregator, after, until))
         == aggregator + until * ADDRESS + after * (ADDRESS * TIME)
  {
    hide BitOr, Pow2, ADDRESS, TIME;
    FieldWidths();
    OrDisjoint(aggregator, until, 160);
    MulMono(until + 1, TIME, ADDRESS);
    assert (until + 1) * ADDRESS == until * ADDRESS + ADDRESS;
    assert TIME * ADDRESS == ADDRESS * TIME;
    OrDisjoint(aggregator + until * ADDRESS, after, 208);
  }

  /** Reading the fields back. */
  lemma FieldsOf(aggregator: nat, until: nat, after: nat, a: nat, t: nat)
    requires 0 < a && 0 < t && aggregator < a && until < t && after < t
    ensures var data := aggregator + until * a + after * (a * t);
      && data % a == aggregator && (data / a) % t == until && (data / (a * t)) % t == after
  {
    var data := aggregator + until * a + after * (a * t);
    assert after * (a * t) == (after * t) * a;
    assert data == (until + after * t) * a + aggregator;
    DivModUnique(data, until + after * t, aggregator, a);
    DivModUnique(until + after * t, after, until, t);
    MulMono(until + 1, t, a);
    assert (until + 1) * a == until * a + a;
    assert t * a == a * t;
    assert a * t > 0;
    DivModUnique(data, after, aggregator + until * a, a * t);
    DivModUnique(after, 0, after, t);
  }

  lemma ParseSum(aggregator: nat, until: nat, after: nat)
    requires aggregator < ADDRESS && until < TIME && after < TIME
    ensures Parse(aggregator + until * ADDRESS + after * (ADDRESS * TIME))
         == Window(aggregator, after, if until == 0 then TIME - 1 else until)
  {
    FieldSizes();
    hide Pow2, ADDRESS, TIME;
    FieldWidths();
    FieldsOf(aggregator, until, after, ADDRESS, TIME);
  }

  lemma FieldSizes()
    ensures ADDRESS > 1 && TIME > 1
  {
  }

  /** Packing and parsing: the window comes back, with 0 read as no upper limit. */
  lemma PackParse(sigFailed: bool, until: nat, after: nat)
    requires until < TIME && after < TIME
    ensures Parse(Pack(sigFailed, until, after))
         == Window(if sigFailed then 1 else 0, after, if until == 0 then TIME - 1 else until)
  {
    FieldSizes();
    hide Parse, BitOr, Pow2, ADDRESS, TIME;
    var aggregator := if sigFailed then 1 else 0;
    PackIsSum(aggregator, until, after);
    ParseSum(aggregator, until, after);
  }

  /** The same for a full window; every window with a non-zero upper limit survives. */
  lemma PackWindowParse(w: Window)
    requires w.aggregator < ADDRESS && w.validUntil < TIME && w.validAfter < TIME
    ensures Parse(PackWindow(w)) == if w.validUntil == 0 then w.(validUntil := TIME - 1) else w
  {
    hide Parse, BitOr, Pow2, ADDRESS, TIME;
    PackIsSum(w.aggregator, w.validUntil, w.validAfter);
    ParseSum(w.aggregator, w.validUntil, w.validAfter);
  }

  /** An upper limit as it is read: 0 means none. */
  function Limit(until: nat): (r: nat) {
    if until == 0 then TIME - 1 else until
  }

  predicate WellSized(w: Window) {
    w.aggregator < ADDRESS && w.validUntil < TIME && w.validAfter < TIME
  }

  /**
   * The intersection of two packed windows, field by field: the first non-zero aggregator, the later start and
   * the earlier end, whether or not any timestamp is left.
   */
  lemma IntersectPacked(w: Window, w': Window)
    requires WellSized(w) && WellSized(w')
    ensures var i := Intersect(PackWindow(w), PackWindow(w'));
      && (w.aggregator != 0 ==> i.aggregator == w.aggregator)
      && (w.aggregator == 0 ==> i.aggregator == w'.aggregator)
      && i.validAfter >= w.validAfter && i.validAfter >= w'.validAfter
      && (i.validAfter == w.validAfter || i.validAfter == w'.validAfter)
      && i.validUntil <= Limit(w.validUntil) && i.validUntil <= Limit(w'.validUntil)
      && (i.validUntil == Limit(w.validUntil) || i.validUntil == Limit(w'.validUntil))
  {
    hide Parse, PackWindow, ADDRESS, TIME;
    PackWindowParse(w);
    PackWindowParse(w');
  }

  /** The intersection allows exactly the timestamps that both sides allow, and accepts only if both do. */
  lemma IntersectExact(account: nat, paymaster: nat, time: nat)
    ensures Allows(Intersect(account, paymaster), time)
       <==> Allows(Parse(account), time) && Allows(Parse(paymaster), time)
    ensures Intersect(account, paymaster).aggregator == 0
       <==> Parse(account).aggregator == 0 && Parse(paymaster).aggregator == 0
  {
    hide Parse;
  }

}
