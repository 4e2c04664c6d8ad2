/**
 * The signed paymaster of contracts/enclave-smart-account/EnclaveVerifyingPaymaster.sol.
 */
module Paymaster {
  import opened Options
  import opened Words
  import opened ValidationData

  /** The fields of a user operation that the paymaster signs, and the data that carries the signature. */
  datatype UserOp = UserOp(
    sender: Address, nonce: nat, initCode: seq<Byte>, callData: seq<Byte>,
    callGasLimit: nat, verificationGasLimit: nat, preVerificationGas: nat,
    maxFeePerGas: nat, maxPriorityFeePerGas: nat,
    paymasterAndData: seq<Byte>)

  /** keccak256, taken as injective. */
  datatype Hash = Keccak(preimage: seq<Byte>)

  /** pack(userOp): everything but paymasterAndData. */
  datatype Packed = Packed(
    sender: Address, nonce: nat, hashInitCode: Hash, hashCallData: Hash,
    callGasLimit: nat, verificationGasLimit: nat, preVerificationGas: nat,
    maxFeePerGas: nat, maxPriorityFeePerGas: nat)

  /** The hash that the signer signs, as its injective preimage. */
  datatype Authorisation = Authorisation(
    op: Packed, chainId: nat, paymaster: Address, senderNonce: nat, validUntil: nat, validAfter: nat)

  function PackOp(op: UserOp): (r: Packed) {
    Packed(op.sender, op.nonce, Keccak(op.initCode), Keccak(op.callData), op.callGasLimit,
           op.verificationGasLimit, op.preVerificationGas, op.maxFeePerGas, op.maxPriorityFeePerGas)
  }

  // ---------------------------------------------------------------------------------------------
  // paymasterAndData

  /** A big-endian number. */
  function FromBytes(b: seq<Byte>): (r: nat) {
    if b == [] then 0 else FromBytes(b[..|b| - 1]) * 256 + b[|b| - 1]
  }

  /** An n-byte big-endian number. */
  function ToBytes(n: nat, x: nat): (r: seq<Byte>) {
    if n == 0 then [] else ToBytes(n - 1, x / 256) + [x % 256]
  }

  function Power256(n: nat): (r: nat) {
    if n == 0 then 1 else 256 * Power256(n - 1)
  }

  lemma {:induction false} BytesInverse(n: nat, x: nat)
    requires x < Power256(n)
    ensures |ToBytes(n, x)| == n && FromBytes(ToBytes(n, x)) == x
  {
    if n > 0 {
      BytesInverse(n - 1, x / 256);
      var b := ToBytes(n, x);
      assert b[..|b| - 1] == ToBytes(n - 1, x / 256);
    }
  }

  lemma {:induction false} NumberInverse(b: seq<Byte>)
    ensures ToBytes(|b|, FromBytes(b)) == b && FromBytes(b) < Power256(|b|)
  {
    if b != [] {
      var front := b[..|b| - 1];
      NumberInverse(front);
      assert b == front + [b[|b| - 1]];
    }
  }

  datatype PaymasterData = PaymasterData(validUntil: nat, validAfter: nat, signature: seq<Byte>)

  /** A 32-byte word decoded as uint48; larger values do not decode. */
  function DecodeUint48(word: seq<Byte>): (r: Option<nat>) {
    if FromBytes(word) < TIME then Some(FromBytes(word)) else None
  }

  /** parsePaymasterAndData: 20 bytes of address, two words, and the signature. */
  function ParsePaymasterAndData(data: seq<Byte>): (r: Option<PaymasterData>) {
    if |data| < 84 then None else
    var validUntil :- DecodeUint48(data[20..52]);
    var validAfter :- DecodeUint48(data[52..84]);
    Some(PaymasterData(validUntil, validAfter, data[84..]))
  }

  function EncodePaymasterAndData(paymaster: seq<Byte>, d: PaymasterData): (r: seq<Byte>) {
    paymaster + ToBytes(32, d.validUntil) + ToBytes(32, d.validAfter) + d.signature
  }

  lemma WordHoldsTime()
    ensures TIME <= Power256(32)
  {
    assert Power256(6) == TIME;
    PowerGrows(6, 32);
  }

  lemma {:induction false} PowerGrows(i: nat, j: nat)
    requires i <= j
    ensures Power256(i) <= Power256(j)
  {
    if i < j {
      PowerGrows(i, j - 1);
    }
  }

  /** The layout: 20 bytes, two words and the signature; it parses exactly when both words are 48-bit numbers. */
  lemma ParseIff(paymaster: seq<Byte>, d: PaymasterData)
    requires |paymaster| == 20 && d.validUntil < Power256(32) && d.validAfter < Power256(32)
    ensures ParsePaymasterAndData(EncodePaymasterAndData(paymaster, d))
         == if d.validUntil < TIME && d.validAfter < TIME then Some(d) else None
  {
    hide Power256, FromBytes, ToBytes, TIME;
    BytesInverse(32, d.validUntil);
    BytesInverse(32, d.validAfter);
    var data := EncodePaymasterAndData(paymaster, d);
    assert data[20..52] == ToBytes(32, d.validUntil);
    assert data[52..84] == ToBytes(32, d.validAfter);
    assert data[84..] == d.signature;
  }

  /** Parsing recovers the window and the signature from every encoding. */
  lemma PaymasterDataRoundTrip(paymaster: seq<Byte>, d: PaymasterData)
    requires |paymaster| == 20 && d.validUntil < TIME && d.validAfter < TIME
    ensures ParsePaymasterAndData(EncodePaymasterAndData(paymaster, d)) == Some(d)
  {
    WordHoldsTime();
    hide Power256, TIME, EncodePaymasterAndData, ParsePaymasterAndData;
    ParseIff(paymaster, d);
  }

  /** Conversely, whatever parses is an encoding, so nothing else is accepted. */
  lemma ParsedIsEncoding(data: seq<Byte>)
    requires ParsePaymasterAndData(data).Some?
    ensures var d := ParsePaymasterAndData(data).value;
      && |data| >= 84 && d.validUntil < TIME && d.validAfter < TIME
      && data == EncodePaymasterAndData(data[..20], d)
  {
    hide FromBytes, ToBytes, TIME;
    NumberInverse(data[20..52]);
    NumberInverse(data[52..84]);
    assert data == data[..20] + data[20..52] + data[52..84] + data[84..];
  }

  // ---------------------------------------------------------------------------------------------
  // Validation

  /** The fixed surroundings: chain, own address, the trusted signer, and signature recovery. */
  datatype Setting = Setting(
    chainId: nat, self: Address, verifyingSigner: Address,
    recover: (Authorisation, seq<Byte>) -> Option<Address>)

  type Nonces = map<Address, nat>

  function NonceOf(nonces: Nonces, sender: Address): (r: nat) {
    if sender in nonces then nonces[sender] else 0
  }

  /** getHash. */
  function GetHash(e: Setting, nonces: Nonces, op: UserOp, validUntil: nat, validAfter: nat): (r: Authorisation) {
    Authorisation(PackOp(op), e.chainId, e.self, NonceOf(nonces, op.sender), validUntil, validAfter)
  }

  /** What a validation that does not revert decides. */
  datatype Verdict = Verdict(authorisation: Authorisation, accepted: bool, validationData: nat)

  /** _validatePaymasterUserOp, as a function of the stored nonces; None is a revert. */
  function Validate(e: Setting, nonces: Nonces, op: UserOp): (r: Option<Verdict>) {
    var d :- ParsePaymasterAndData(op.paymasterAndData);
    if |d.signature| != 64 && |d.signature| != 65 then None else
    var authorisation := GetHash(e, nonces, op, d.validUntil, d.validAfter);
    if NonceOf(nonces, op.sender) + 1 >= R then None else
    var signer :- e.recover(authorisation, d.signature);
    Some(Verdict(authorisation, signer == e.verifyingSigner,
                 Pack(signer != e.verifyingSigner, d.validUntil, d.validAfter)))
  }

  /** A validation that does not revert uses up the sender's nonce, accepted or not. */
  function NextNonces(nonces: Nonces, op: UserOp): (r: Nonces) {
    nonces[op.sender := NonceOf(nonces, op.sender) + 1]
  }

  class EnclaveVerifyingPaymaster {
    const setting: Setting
    var senderNonce: Nonces

    constructor (setting: Setting)
      ensures this.setting == setting && senderNonce == map[]
    {
      this.setting := setting;
      senderNonce := map[];
    }

    method ValidatePaymasterUserOp(op: UserOp) returns (validationData: Option<nat>)
      modifies this
      ensures var v := Validate(setting, old(senderNonce), op);
        && (v.None? ==> validationData.None? && senderNonce == old(senderNonce))
        && (v.Some? ==> validationData == Some(v.value.validationData)
                        && senderNonce == NextNonces(old(senderNonce), op))
    {
      hide Pack, FromBytes;
      var parsed := ParsePaymasterAndData(op.paymasterAndData);
      if parsed.None? { return None; }
      var PaymasterData(validUntil, validAfter, signature) := parsed.value;
      if !(|signature| == 64 || |signature| == 65) { return None; }
      var hash := GetHash(setting, senderNonce, op, validUntil, validAfter);
      if NonceOf(senderNonce, op.sender) + 1 >= R { return None; }
      var before := senderNonce;
      senderNonce := senderNonce[op.sender := NonceOf(senderNonce, op.sender) + 1];
      var signer := setting.recover(hash, signature);
      if signer.None? {
        senderNonce := before;
        return None;
      }
      if setting.verifyingSigner != signer.value {
        return Some(Pack(true, validUntil, validAfter));
      }
      return Some(Pack(false, validUntil, validAfter));
    }
  }

  /** What the signer signs, field by field. */
  function Signed(e: Setting, nonce: nat, op: UserOp, validUntil: nat, validAfter: nat): (r: Authorisation) {
    Authorisation(
      Packed(op.sender, op.nonce, Keccak(op.initCode), Keccak(op.callData), op.callGasLimit,
             op.verificationGasLimit, op.preVerificationGas, op.maxFeePerGas, op.maxPriorityFeePerGas),
      e.chainId, e.self, nonce, validUntil, validAfter)
  }

  /**
   * Validation of well-formed data: it returns exactly when the signature has 64 or 65 bytes, the nonce can be
   * incremented and some signer is recovered from the hash; it accepts exactly the trusted signer.
   */
  lemma ValidationDecides(e: Setting, nonces: Nonces, op: UserOp, paymaster: seq<Byte>, d: PaymasterData)
    requires |paymaster| == 20 && d.validUntil < TIME && d.validAfter < TIME
    requires op.paymasterAndData == EncodePaymasterAndData(paymaster, d)
    ensures var v := Validate(e, nonces, op);
      var signed := Signed(e, NonceOf(nonces, op.sender), op, d.validUntil, d.validAfter);
      var signer := e.recover(signed, d.signature);
      && (v.Some? <==> |d.signature| in {64, 65} && NonceOf(nonces, op.sender) + 1 < R && signer.Some?)
      && (v.Some? ==> v.value.authorisation == signed && (v.value.accepted <==> signer == Some(e.verifyingSigner)))
      && (v.Some? ==> v.value.validationData
                      == Pack(signer != Some(e.verifyingSigner), d.validUntil, d.validAfter))
  {
    PaymasterDataRoundTrip(paymaster, d);
    hide Pack, EncodePaymasterAndData, ParsePaymasterAndData, NonceOf, TIME;
  }

  /** Data of any other form reverts: whatever is validated is an encoding. */
  lemma OnlyEncodings(e: Setting, nonces: Nonces, op: UserOp) returns (paymaster: seq<Byte>, d: PaymasterData)
    requires Validate(e, nonces, op).Some?
    ensures |paymaster| == 20 && d.validUntil < TIME && d.validAfter < TIME
    ensures op.paymasterAndData == EncodePaymasterAndData(paymaster, d)
  {
    ParsedIsEncoding(op.paymasterAndData);
    d := ParsePaymasterAndData(op.paymasterAndData).value;
    paymaster := op.paymasterAndData[..20];
  }

  /** The signed hash covers every signed field, the chain, the paymaster, the nonce and the window. */
  lemma HashBinds(e: Setting, nonces: Nonces, op: UserOp, until: nat, after: nat,
                  e': Setting, nonces': Nonces, op': UserOp, until': nat, after': nat)
    requires GetHash(e, nonces, op, until, after) == GetHash(e', nonces', op', until', after')
    ensures op == op'.(paymasterAndData := op.paymasterAndData)
    ensures e.chainId == e'.chainId && e.self == e'.self && until == until' && after == after'
    ensures NonceOf(nonces, op.sender) == NonceOf(nonces', op'.sender)
  {
  }

  /**
   * The entry point, intersecting with the account's data, allows exactly the timestamps of the signed window and
   * sees success exactly when the trusted signer is recovered from the signed fields.
   */
  lemma VerdictWindow(e: Setting, nonces: Nonces, op: UserOp, paymaster: seq<Byte>, d: PaymasterData,
                      account: nat, time: nat)
    requires |paymaster| == 20 && d.validUntil < TIME && d.validAfter < TIME
    requires op.paymasterAndData == EncodePaymasterAndData(paymaster, d) && Validate(e, nonces, op).Some?
    ensures var seen := Intersect(account, Validate(e, nonces, op).value.validationData);
      var signed := Signed(e, NonceOf(nonces, op.sender), op, d.validUntil, d.validAfter);
      && (Allows(seen, time)
          <==> Allows(Parse(account), time) && d.validAfter <= time <= Limit(d.validUntil))
      && (seen.aggregator == 0
          <==> Parse(account).aggregator == 0 && e.recover(signed, d.signature) == Some(e.verifyingSigner))
  {
    ValidationDecides(e, nonces, op, paymaster, d);
    hide Pack, Parse, Intersect, Allows, Validate, EncodePaymasterAndData, NonceOf, Signed;
    var signed := Signed(e, NonceOf(nonces, op.sender), op, d.validUntil, d.validAfter);
    var failed := e.recover(signed, d.signature) != Some(e.verifyingSigner);
    PackParse(failed, d.validUntil, d.validAfter);
    IntersectExact(account, Pack(failed, d.validUntil, d.validAfter), time);
    WindowBounds(if failed then 1 else 0, d.validAfter, Limit(d.validUntil), time);
  }

  lemma WindowBounds(aggregator: nat, after: nat, until: nat, time: nat)
    ensures Allows(Window(aggregator, after, until), time) <==> after <= time <= until
  {
  }

  // ---------------------------------------------------------------------------------------------
  // Runs

  /** A transaction validates operations in order; it takes effect only if it commits and none reverts. */
  datatype Transaction = Transaction(ops: seq<UserOp>, commits: bool)

  /** The nonces after a batch and the authorisations it accepted; None if some validation reverts. */
  function Batch(e: Setting, nonces: Nonces, ops: seq<UserOp>): (r: Option<(Nonces, seq<Authorisation>)>)
    decreases |ops|
  {
    if ops == [] then Some((nonces, [])) else
    var v :- Validate(e, nonces, ops[0]);
    var rest :- Batch(e, NextNonces(nonces, ops[0]), ops[1..]);
    Some((rest.0, (if v.accepted then [v.authorisation] else []) + rest.1))
  }

  /** All authorisations committed as accepted, in order, and the final nonces. */
  function Run(e: Setting, nonces: Nonces, txs: seq<Transaction>): (r: (Nonces, seq<Authorisation>))
    decreases |txs|
  {
    if txs == [] then (nonces, []) else
    var batch := if txs[0].commits then Batch(e, nonces, txs[0].ops) else None;
    if batch.None? then Run(e, nonces, txs[1..])
    else
      var rest := Run(e, batch.value.0, txs[1..]);
      (rest.0, batch.value.1 + rest.1)
  }

  ghost predicate SpentBy(from: Nonces, to: Nonces, a: Authorisation) {
    NonceOf(from, a.op.sender) <= a.senderNonce < NonceOf(to, a.op.sender)
  }

  /** Every accepted authorisation carries a nonce of its sender in the window [from, to). */
  ghost predicate Spent(from: Nonces, to: Nonces, accepted: seq<Authorisation>) {
    forall i :: 0 <= i < |accepted| ==> SpentBy(from, to, accepted[i])
  }

  ghost predicate Distinct(accepted: seq<Authorisation>) {
    forall i, j :: 0 <= i < j < |accepted| ==> accepted[i] != accepted[j]
  }

  ghost predicate NotBelow(from: Nonces, to: Nonces) {
    forall sender: Address :: NonceOf(from, sender) <= NonceOf(to, sender)
  }

  /** Windows that follow each other hold different authorisations. */
  lemma Concatenate(from: Nonces, mid: Nonces, to: Nonces, x: seq<Authorisation>, y: seq<Authorisation>)
    requires NotBelow(from, mid) && NotBelow(mid, to)
    requires Spent(from, mid, x) && Spent(mid, to, y) && Distinct(x) && Distinct(y)
    ensures NotBelow(from, to) && Spent(from, to, x + y) && Distinct(x + y)
  {
    hide NonceOf;
    forall i | 0 <= i < |x + y|
      ensures SpentBy(from, to, (x + y)[i])
    {
      var a := (x + y)[i];
      if i < |x| {
        assert SpentBy(from, mid, x[i]);
        assert NonceOf(mid, a.op.sender) <= NonceOf(to, a.op.sender);
      } else {
        assert SpentBy(mid, to, y[i - |x|]);
        assert NonceOf(from, a.op.sender) <= NonceOf(mid, a.op.sender);
      }
    }
    forall i, j | 0 <= i < j < |x + y|
      ensures (x + y)[i] != (x + y)[j]
    {
      if j < |x| {
        assert x[i] != x[j];
      } else if i >= |x| {
        assert y[i - |x|] != y[j - |x|];
      } else {
        assert SpentBy(from, mid, x[i]) && SpentBy(mid, to, y[j - |x|]);
      }
    }
  }

  /** One validation spends exactly the sender's current nonce. */
  lemma ValidateSpends(e: Setting, nonces: Nonces, op: UserOp)
    requires Validate(e, nonces, op).Some?
    ensures var v := Validate(e, nonces, op).value;
      var x := if v.accepted then [v.authorisation] else [];
      && NotBelow(nonces, NextNonces(nonces, op)) && Spent(nonces, NextNonces(nonces, op), x) && Distinct(x)
      && v.authorisation.senderNonce == NonceOf(nonces, op.sender)
  {
    hide Pack, FromBytes;
  }

  /** The nonce of the sender goes up by one, and no other nonce changes. */
  lemma NonceAdvances(nonces: Nonces, op: UserOp, sender: Address)
    ensures NonceOf(NextNonces(nonces, op), sender) == NonceOf(nonces, sender) + (if sender == op.sender then 1 else 0)
  {
  }

  lemma {:induction false} BatchSpends(e: Setting, nonces: Nonces, ops: seq<UserOp>)
    requires Batch(e, nonces, ops).Some?
    ensures var (after, accepted) := Batch(e, nonces, ops).value;
      NotBelow(nonces, after) && Spent(nonces, after, accepted) && Distinct(accepted)
    decreases |ops|
  {
    hide Validate, NextNonces, NotBelow, Spent, Distinct;
    if ops == [] {
      NothingSpent(nonces);
    } else {
      var v := Validate(e, nonces, ops[0]).value;
      var next := NextNonces(nonces, ops[0]);
      ValidateSpends(e, nonces, ops[0]);
      BatchSpends(e, next, ops[1..]);
      var (after, rest) := Batch(e, next, ops[1..]).value;
      Concatenate(nonces, next, after, if v.accepted then [v.authorisation] else [], rest);
    }
  }

  lemma NothingSpent(nonces: Nonces)
    ensures NotBelow(nonces, nonces) && Spent(nonces, nonces, []) && Distinct([])
  {
  }

  lemma {:induction false} RunSpends(e: Setting, nonces: Nonces, txs: seq<Transaction>)
    ensures var (after, accepted) := Run(e, nonces, txs);
      NotBelow(nonces, after) && Spent(nonces, after, accepted) && Distinct(accepted)
    decreases |txs|
  {
    hide Batch, NotBelow, Spent, Distinct;
    if txs == [] {
      NothingSpent(nonces);
    } else {
      var batch := if txs[0].commits then Batch(e, nonces, txs[0].ops) else None;
      if batch.None? {
        RunSpends(e, nonces, txs[1..]);
      } else {
        var (mid, x) := batch.value;
        BatchSpends(e, nonces, txs[0].ops);
        RunSpends(e, mid, txs[1..]);
        var (after, y) := Run(e, mid, txs[1..]);
        Concatenate(nonces, mid, after, x, y);
      }
    }
  }

  /** In every run, each signed authorisation is committed as accepted at most once. */
  lemma AcceptedAtMostOnce(e: Setting, nonces: Nonces, txs: seq<Transaction>, i: nat, j: nat)
    requires i < |Run(e, nonces, txs).1| && j < |Run(e, nonces, txs).1|
    requires Run(e, nonces, txs).1[i] == Run(e, nonces, txs).1[j]
    ensures i == j
  {
    hide Run;
    RunSpends(e, nonces, txs);
    var accepted := Run(e, nonces, txs).1;
    assert Distinct(accepted);
  }

  /** A committed authorisation is never accepted by a later validation. */
  lemma NeverAcceptedAgain(e: Setting, nonces: Nonces, txs: seq<Transaction>, i: nat, op: UserOp)
    requires i < |Run(e, nonces, txs).1|
    requires Validate(e, Run(e, nonces, txs).0, op).Some?
    ensures Validate(e, Run(e, nonces, txs).0, op).value.authorisation != Run(e, nonces, txs).1[i]
  {
    hide Run, Validate;
    RunSpends(e, nonces, txs);
    var (after, accepted) := Run(e, nonces, txs);
    ValidateSpends(e, after, op);
    AuthorisationSender(e, after, op);
    assert SpentBy(nonces, after, accepted[i]);
  }

  lemma AuthorisationSender(e: Setting, nonces: Nonces, op: UserOp)
    requires Validate(e, nonces, op).Some?
    ensures Validate(e, nonces, op).value.authorisation.op.sender == op.sender
  {
    hide Pack, FromBytes;
  }

  /** Some signature by the trusted signer stands behind an authorisation. */
  ghost predicate Endorsed(e: Setting, a: Authorisation) {
    exists signature :: e.recover(a, signature) == Some(e.verifyingSigner)
  }

  lemma AcceptedIsEndorsed(e: Setting, nonces: Nonces, op: UserOp)
    requires Validate(e, nonces, op).Some? && Validate(e, nonces, op).value.accepted
    ensures Endorsed(e, Validate(e, nonces, op).value.authorisation)
  {
    hide Validate, EncodePaymasterAndData, TIME;
    var paymaster, d := OnlyEncodings(e, nonces, op);
    ValidationDecides(e, nonces, op, paymaster, d);
    var signed := Signed(e, NonceOf(nonces, op.sender), op, d.validUntil, d.validAfter);
    assert e.recover(signed, d.signature) == Some(e.verifyingSigner);
  }

  lemma {:induction false} BatchEndorsed(e: Setting, nonces: Nonces, ops: seq<UserOp>, i: nat)
    requires Batch(e, nonces, ops).Some? && i < |Batch(e, nonces, ops).value.1|
    ensures Endorsed(e, Batch(e, nonces, ops).value.1[i])
    decreases |ops|
  {
    hide Validate, NextNonces, Endorsed;
    var v := Validate(e, nonces, ops[0]).value;
    var x := if v.accepted then [v.authorisation] else [];
    if i < |x| {
      AcceptedIsEndorsed(e, nonces, ops[0]);
    } else {
      BatchEndorsed(e, NextNonces(nonces, ops[0]), ops[1..], i - |x|);
    }
  }

  /** In every run, every committed authorisation was signed by the trusted signer. */
  lemma {:induction false} RunEndorsed(e: Setting, nonces: Nonces, txs: seq<Transaction>, i: nat)
    requires i < |Run(e, nonces, txs).1|
    ensures Endorsed(e, Run(e, nonces, txs).1[i])
    decreases |txs|
  {
    hide Batch, Endorsed;
    var batch := if txs[0].commits then Batch(e, nonces, txs[0].ops) else None;
    if batch.None? {
      RunEndorsed(e, nonces, txs[1..], i);
    } else if i < |batch.value.1| {
      BatchEndorsed(e, nonces, txs[0].ops, i);
    } else {
      RunEndorsed(e, batch.value.0, txs[1..], i - |batch.value.1|);
    }
  }

  /** A committed transaction with one operation records it exactly when it is accepted, and uses up its nonce. */
  lemma {:induction false} CommittedIsRecorded(e: Setting, nonces: Nonces, txs: seq<Transaction>, op: UserOp)
    ensures var before := Run(e, nonces, txs);
      var v := Validate(e, before.0, op);
      Run(e, nonces, txs + [Transaction([op], true)])
      == if v.None? then before
         else (NextNonces(before.0, op), before.1 + (if v.value.accepted then [v.value.authorisation] else []))
    decreases |txs|
  {
    hide Validate, NextNonces;
    var last := Transaction([op], true);
    if txs == [] {
      assert txs + [last] == [last];
      SingleBatch(e, nonces, op);
      hide Batch;
      assert [last][1..] == [];
      var v := Validate(e, nonces, op);
      if v.Some? {
        var x := if v.value.accepted then [v.value.authorisation] else [];
        assert Run(e, NextNonces(nonces, op), []) == (NextNonces(nonces, op), []);
        assert x + [] == x && [] + x == x;
      }
    } else {
      hide Batch;
      assert (txs + [last])[1..] == txs[1..] + [last];
      var batch := if txs[0].commits then Batch(e, nonces, txs[0].ops) else None;
      var mid := if batch.None? then nonces else batch.value.0;
      CommittedIsRecorded(e, mid, txs[1..], op);
      var v := Validate(e, Run(e, mid, txs[1..]).0, op);
      if batch.Some? && v.Some? {
        var x := if v.value.accepted then [v.value.authorisation] else [];
        assert batch.value.1 + (Run(e, mid, txs[1..]).1 + x) == batch.value.1 + Run(e, mid, txs[1..]).1 + x;
      }
    }
  }

  lemma SingleBatch(e: Setting, nonces: Nonces, op: UserOp)
    ensures var v := Validate(e, nonces, op);
      Batch(e, nonces, [op])
      == if v.None? then None
         else Some((NextNonces(nonces, op), if v.value.accepted then [v.value.authorisation] else []))
  {
    hide Validate, NextNonces;
    assert [op][1..] == [];
    assert Batch(e, NextNonces(nonces, op), []) == Some((NextNonces(nonces, op), []));
    var v := Validate(e, nonces, op);
    if v.Some? {
      var x := if v.value.accepted then [v.value.authorisation] else [];
      assert x + [] == x;
    }
  }

}
