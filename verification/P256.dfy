/**
 * The P-256 constants of both verifiers, and the theorem that the verifiers agree.
 */
module P256 {
  import opened Words
  import opened Congruence
  import opened NumberTheory
  import opened Montgomery
  import opened Curves
  import opened Ladders
  import opened Ecdsa
  import opened Projective
  import Sol = SolidityVerifier
  import Yul = YulVerifier
  import Window

  const P: nat := 0xFFFFFFFF00000001000000000000000000000000FFFFFFFFFFFFFFFFFFFFFFFF
  const A: nat := 0xFFFFFFFF00000001000000000000000000000000FFFFFFFFFFFFFFFFFFFFFFFC
  const B: nat := 0x5AC635D8AA3A93E7B3EBBD55769886BC651D06B0CC53B0F63BCE3C3E27D2604B
  const GX: nat := 0x6B17D1F2E12C4247F8BCE6E563A440F277037D812DEB33A0F4A13945D898C296
  const GY: nat := 0x4FE342E2FE1A7F9B8EE7EB4A7C0F9E162BCE33576B315ECECBB6406837BF51F5
  const N: nat := 0xFFFFFFFF00000000FFFFFFFFFFFFFFFFBCE6FAADA7179E84F3B9CAC2FC632551
  const MINUS_2_MOD_P: nat := 0xFFFFFFFF00000001000000000000000000000000FFFFFFFFFFFFFFFFFFFFFFFD
  const MINUS_2_MOD_N: nat := 0xFFFFFFFF00000000FFFFFFFFFFFFFFFFBCE6FAADA7179E84F3B9CAC2FC63254F

  const MONTGOMERY_ONE_P: nat := 26959946660873538059280334323183841250350249843923952699046031785985
  const MONTGOMERY_A_P: nat := 115792089129476408780076832771566570560534619664239564663761773211729002495996
  const MONTGOMERY_B_P: nat := 99593677540221402957765480916910020772520766868399186769503856397241456836063
  const MONTGOMERY_GX_P: nat := 0x18905F76A53755C679FB732B7762251075BA95FC5FEDB60179E730D418A9143C
  const MONTGOMERY_GY_P: nat := 0x8571FF1825885D85D2E88688DD21F3258B4AB8E4BA19E45CDDF25357CE95560A
  const R2_MOD_P: nat := 134799733323198995502561713907086292154532538166959272814710328655875
  const R2_MOD_N: nat := 46533765739406314298121036767150998762426774378559716911348521029833835802274
  const P_PRIME: nat := 115792089210356248768974548684794254293921932838497980611635986753331132366849
  const N_PRIME: nat := 43790243024438006127650828685417305984841428635278707415088219106730833919055

  const CURVE := Curve(P, A, B)
  const DOMAIN := Domain(CURVE, GX, GY, N)
  const CONSTANTS := Yul.Constants(Field(P, P_PRIME, MONTGOMERY_ONE_P, MONTGOMERY_A_P, MONTGOMERY_B_P),
                                   MONTGOMERY_GX_P, MONTGOMERY_GY_P, R2_MOD_P, N_PRIME, R2_MOD_N)

  /** A congruence between constants, by computation. */
  lemma Computed(a: int, b: int, m: int)
    requires m > 0 && (a - b) % m == 0
    ensures Cong(a, b, m)
  {
    CongBy(a, b, m, (a - b) / m);
  }

  lemma SolidityConstants()
    ensures MINUS_2_MOD_P == P - 2 && MINUS_2_MOD_N == N - 2 && A == P - 3
    ensures Cong(GY * GY, Cubic(CURVE, GX), P)
  {
    Computed(GY * GY, GX * GX * GX + A * GX + B, P);
  }

  /** The companions and the squares of R. */
  lemma ReductionConstants()
    ensures Companion(P, P_PRIME) && Companion(N, N_PRIME)
    ensures R2_MOD_P < P && Cong(R2_MOD_P, R * R, P)
    ensures R2_MOD_N < N && Cong(R2_MOD_N, R * R, N)
  {
    WordValue();
    Computed(P * P_PRIME, -1, R);
    Computed(N * N_PRIME, -1, R);
    Computed(R2_MOD_P, R * R, P);
    Computed(R2_MOD_N, R * R, N);
  }

  /** The constants of the Yul program are Montgomery forms of those of the Solidity contract. */
  lemma MontgomeryConstants()
    ensures MForm(MONTGOMERY_ONE_P, 1, P)
    ensures MForm(MONTGOMERY_A_P, A, P) && MForm(MONTGOMERY_B_P, B, P)
    ensures MForm(MONTGOMERY_GX_P, GX, P) && MForm(MONTGOMERY_GY_P, GY, P)
  {
    WordValue();
    hide Cong;
    Computed(MONTGOMERY_ONE_P, 1 * R, P);
    Computed(MONTGOMERY_A_P, A * R, P);
    Computed(MONTGOMERY_B_P, B * R, P);
    BasePointForms();
  }

  lemma BasePointForms()
    ensures MForm(MONTGOMERY_GX_P, GX, P) && MForm(MONTGOMERY_GY_P, GY, P)
  {
    WordValue();
    hide Cong;
    Computed(MONTGOMERY_GX_P, GX * R, P);
    Computed(MONTGOMERY_GY_P, GY * R, P);
  }

  /** P-256 is a domain of the model, and the Yul constants belong to it. */
  lemma ValidP256()
    requires IsPrime(P) && IsPrime(N)
    ensures ValidDomain(DOMAIN) && Yul.ValidConstants(CONSTANTS, DOMAIN)
  {
    hide Cong, IsPrime, Cubic;
    SolidityConstants();
    ReductionConstants();
    MontgomeryConstants();
  }

  /** On P-256 the table of SECP256R1 for the key G is wrong, and its loop with both scalars 1 ends at infinity. */
  lemma P256BaseKeyFails()
    requires IsPrime(P)
    ensures ValidCurve(CURVE) && OnCurve(CURVE, Affine(GX, GY))
    ensures !Window.TableSafe(CURVE, Affine(GX, GY), Affine(GX, GY))
    ensures Window.CodeLadder(CURVE, Affine(GX, GY), Affine(GX, GY), 1, 1) == Infinity
    ensures Add(CURVE, Affine(GX, GY), Affine(GX, GY)).Affine?
  {
    SolidityConstants();
    WordValue();
    NotMultiple(2 * GY, P);
    hide Cong, IsPrime, Cubic, Window.CodeLadder, Window.TableSafe, Window.Cell, Add, Ladders.Multiple;
    Window.BaseKeyBreaksTable(CURVE, Affine(GX, GY));
    Window.BaseKeyBreaksRun(CURVE, Affine(GX, GY));
    Window.SmallMultiples(CURVE, Affine(GX, GY));
  }

  /** On every domain and every input, the two verifiers decide alike. */
  method VerifiersAgree(k: Yul.Constants, d: Domain, hash: nat, r: nat, s: nat, x: nat, y: nat)
    returns (solidity: bool, yul: Yul.Outcome)
    requires Yul.ValidConstants(k, d) && hash < R && r < R && s < R && x < R && y < R
    ensures ValidDomain(d)
    ensures yul == if WellFormed(d, r, s, x, y) then Yul.Returned(if solidity then 1 else 0) else Yul.Aborted
    ensures !WellFormed(d, r, s, x, y) ==> !solidity
    ensures solidity == LadderAccepts(d, hash, r, s, x, y)
  {
    Yul.ConstantParts(k, d);
    hide Ladder, Scalar, OnCurve, ValidCurve, ValidDomain, Yul.ValidConstants, Associative, Add, Multiple, Accepts;
    solidity := Sol.EcdsaVerify(d, hash, r, s, x, y);
    yul := Yul.Verify(k, d, hash, r, s, x, y);
  }

  /**
   * On P-256, with p and n prime: the Solidity verifier returns true and the Yul program returns 1 on
   * exactly the same inputs; on malformed inputs the former returns false and the latter aborts.
   * If the group rule is associative, both decide the reference acceptance of SEC 1.
   */
  method P256VerifiersAgree(hash: nat, r: nat, s: nat, x: nat, y: nat) returns (solidity: bool, yul: Yul.Outcome)
    requires IsPrime(P) && IsPrime(N)
    requires hash < R && r < R && s < R && x < R && y < R
    ensures ValidDomain(DOMAIN)
    ensures solidity <==> yul == Yul.Returned(1)
    ensures yul.Aborted? <==> !WellFormed(DOMAIN, r, s, x, y)
    ensures yul.Returned? ==> yul.word == if solidity then 1 else 0
    ensures Associative(CURVE) ==> solidity == Accepts(DOMAIN, hash, r, s, x, y)
  {
    ValidP256();
    hide Ladder, Scalar, OnCurve, ValidCurve, ValidDomain, Yul.ValidConstants, Associative, Add, Multiple,
      Accepts, LadderAccepts, WellFormed, IsPrime, CONSTANTS, CURVE;
    solidity, yul := VerifiersAgree(CONSTANTS, DOMAIN, hash, r, s, x, y);
    if Associative(DOMAIN.c) {
      LadderAcceptsIff(DOMAIN, hash, r, s, x, y);
    }
  }

}
