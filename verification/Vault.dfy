/**
 * The token vault of contracts/enclave-smart-balance/v0/EnclaveTokenVaultV0.sol, with ERC-20 tokens that
 * move exactly the amount asked for.
 */
module Vault {
  import opened Options
  import opened Words

  /** A nested mapping from tokens and accounts to amounts; absent entries are zero. */
  type Book = map<Address, map<Address, nat>>

  function Row(b: Book, token: Address): (r: map<Address, nat>) {
    if token in b then b[token] else map[]
  }

  function Get(b: Book, token: Address, account: Address): (r: nat) {
    if account in Row(b, token) then Row(b, token)[account] else 0
  }

  function Put(b: Book, token: Address, account: Address, amount: nat): (r: Book) {
    b[token := Row(b, token)[account := amount]]
  }

  /** An exact transfer. */
  function Move(b: Book, token: Address, from: Address, to: Address, amount: nat): (r: Book)
    requires amount <= Get(b, token, from)
  {
    var b' := Put(b, token, from, Get(b, token, from) - amount);
    Put(b', token, to, Get(b', token, to) + amount)
  }

  // ---------------------------------------------------------------------------------------------
  // Sums

  ghost function Sum(row: map<Address, nat>): (r: nat) {
    if row.Keys == {} then 0 else
      var a :| a in row.Keys;
      row[a] + Sum(row - {a})
  }

  lemma {:induction false} SumRemove(row: map<Address, nat>, a: Address)
    requires a in row
    ensures Sum(row) == row[a] + Sum(row - {a})
    decreases |row|
  {
    var b :| b in row.Keys && Sum(row) == row[b] + Sum(row - {b});
    if a != b {
      SumRemove(row - {b}, a);
      SumRemove(row - {a}, b);
      assert row - {b} - {a} == row - {a} - {b};
    }
  }

  lemma SumUpdate(row: map<Address, nat>, a: Address, v: nat)
    ensures Sum(row[a := v]) == Sum(row) - (if a in row then row[a] else 0) + v
  {
    var row' := row[a := v];
    SumRemove(row', a);
    assert row' - {a} == row - {a};
    if a in row {
      SumRemove(row, a);
    } else {
      assert row - {a} == row;
    }
  }

  /** All recorded deposits of a token. */
  ghost function Total(deposits: Book, token: Address): (r: nat) {
    Sum(Row(deposits, token))
  }

  lemma TotalPut(b: Book, token: Address, account: Address, amount: nat, t: Address)
    ensures Total(Put(b, token, account, amount), t)
         == if t == token then Total(b, t) - Get(b, token, account) + amount else Total(b, t)
  {
    SumUpdate(Row(b, token), account, amount);
  }

  lemma GetPut(b: Book, token: Address, account: Address, amount: nat, t: Address, a: Address)
    ensures Get(Put(b, token, account, amount), t, a)
         == if t == token && a == account then amount else Get(b, t, a)
  {
  }

  lemma GetMove(b: Book, token: Address, from: Address, to: Address, amount: nat, t: Address, a: Address)
    requires amount <= Get(b, token, from) && from != to
    ensures Get(Move(b, token, from, to, amount), t, a)
         == if t == token && a == from then Get(b, t, a) - amount
            else if t == token && a == to then Get(b, t, a) + amount
            else Get(b, t, a)
  {
    hide Get, Put;
    var b' := Put(b, token, from, Get(b, token, from) - amount);
    GetPut(b, token, from, Get(b, token, from) - amount, t, a);
    GetPut(b, token, from, Get(b, token, from) - amount, token, to);
    GetPut(b', token, to, Get(b', token, to) + amount, t, a);
  }

  // ---------------------------------------------------------------------------------------------
  // The state machine

  datatype State = State(deposits: Book, managers: set<Address>, balances: Book)

  /** The calls of the vault, and transfers that do not involve its code. */
  datatype Action =
    | AddVaultManager(sender: Address, account: Address)
    | RemoveVaultManager(sender: Address, account: Address)
    | Deposit(sender: Address, token: Address, amount: nat, approved: bool)
    | Withdraw(sender: Address, token: Address, amount: nat)
    | Claim(sender: Address, token: Address, amount: nat, proof: Option<Address>)
    | Transfer(sender: Address, token: Address, amount: nat, to: Address)

  /** The vault never calls itself and approves nobody, so no action is sent in its name. */
  ghost predicate Honest(vault: Address, a: Action) {
    a.sender != vault
  }

  /** The conditions under which an action does not revert. */
  predicate Succeeds(vault: Address, s: State, a: Action) {
    match a
    case AddVaultManager(sender, account) => sender in s.managers && account != 0 && account !in s.managers
    case RemoveVaultManager(sender, account) => sender in s.managers && account in s.managers && sender != account
    case Deposit(sender, token, amount, approved) =>
      && amount > 0 && approved && amount <= Get(s.balances, token, sender)
      && Get(s.deposits, token, sender) + amount < R
    case Withdraw(sender, token, amount) =>
      && amount > 0 && amount <= Get(s.deposits, token, sender)
      && amount <= Get(s.balances, token, vault)
    case Claim(sender, token, amount, proof) =>
      && sender in s.managers && amount > 0 && proof.Some?
      && amount <= Get(s.deposits, token, proof.value)
      && amount <= Get(s.balances, token, vault)
    case Transfer(sender, token, amount, to) => amount <= Get(s.balances, token, sender)
  }

  function Apply(vault: Address, s: State, a: Action): (r: State)
    requires Succeeds(vault, s, a)
  {
    match a
    case AddVaultManager(_, account) => s.(managers := s.managers + {account})
    case RemoveVaultManager(_, account) => s.(managers := s.managers - {account})
    case Deposit(sender, token, amount, _) =>
      s.(balances := Move(s.balances, token, sender, vault, amount),
         deposits := Put(s.deposits, token, sender, Get(s.deposits, token, sender) + amount))
    case Withdraw(sender, token, amount) =>
      s.(deposits := Put(s.deposits, token, sender, Get(s.deposits, token, sender) - amount),
         balances := Move(s.balances, token, vault, sender, amount))
    case Claim(sender, token, amount, proof) =>
      s.(deposits := Put(s.deposits, token, proof.value, Get(s.deposits, token, proof.value) - amount),
         balances := Move(s.balances, token, vault, sender, amount))
    case Transfer(sender, token, amount, to) => s.(balances := Move(s.balances, token, sender, to, amount))
  }

  /** A reverting action changes nothing. */
  function Step(vault: Address, s: State, a: Action): (r: State) {
    if Succeeds(vault, s, a) then Apply(vault, s, a) else s
  }

  function Run(vault: Address, s: State, actions: seq<Action>): (r: State)
    decreases |actions|
  {
    if actions == [] then s else Run(vault, Step(vault, s, actions[0]), actions[1..])
  }

  function Initial(deployer: Address, balances: Book): (r: State) {
    State(map[], {deployer}, balances)
  }

  // ---------------------------------------------------------------------------------------------
  // Solvency

  /** The vault holds at least what it owes, token by token, and somebody manages it. */
  ghost predicate Solvent(vault: Address, s: State) {
    && (forall token: Address :: Total(s.deposits, token) <= Get(s.balances, token, vault))
    && s.managers != {}
  }

  lemma CreditKeeps(vault: Address, s: State, token: Address, from: Address, user: Address, amount: nat)
    requires Solvent(vault, s) && from != vault && amount <= Get(s.balances, token, from)
    ensures Solvent(vault, s.(
              balances := Move(s.balances, token, from, vault, amount),
              deposits := Put(s.deposits, token, user, Get(s.deposits, token, user) + amount)))
  {
    hide Get, Put, Move, Total;
    forall t: Address
      ensures Total(Put(s.deposits, token, user, Get(s.deposits, token, user) + amount), t)
           <= Get(Move(s.balances, token, from, vault, amount), t, vault)
    {
      TotalPut(s.deposits, token, user, Get(s.deposits, token, user) + amount, t);
      GetMove(s.balances, token, from, vault, amount, t, vault);
    }
  }

  lemma DebitKeeps(vault: Address, s: State, token: Address, to: Address, user: Address, amount: nat)
    requires Solvent(vault, s) && to != vault
    requires amount <= Get(s.deposits, token, user) && amount <= Get(s.balances, token, vault)
    ensures Solvent(vault, s.(
              deposits := Put(s.deposits, token, user, Get(s.deposits, token, user) - amount),
              balances := Move(s.balances, token, vault, to, amount)))
  {
    hide Get, Put, Move, Total;
    forall t: Address
      ensures Total(Put(s.deposits, token, user, Get(s.deposits, token, user) - amount), t)
           <= Get(Move(s.balances, token, vault, to, amount), t, vault)
    {
      TotalPut(s.deposits, token, user, Get(s.deposits, token, user) - amount, t);
      GetMove(s.balances, token, vault, to, amount, t, vault);
    }
  }

  lemma OutsideKeeps(vault: Address, s: State, token: Address, from: Address, to: Address, amount: nat)
    requires Solvent(vault, s) && from != vault && amount <= Get(s.balances, token, from)
    ensures Solvent(vault, s.(balances := Move(s.balances, token, from, to, amount)))
  {
    hide Get, Put, Total;
    forall t: Address
      ensures Total(s.deposits, t) <= Get(Move(s.balances, token, from, to, amount), t, vault)
    {
      if from != to {
        hide Move;
        GetMove(s.balances, token, from, to, amount, t, vault);
      } else {
        var b' := Put(s.balances, token, from, Get(s.balances, token, from) - amount);
        GetPut(s.balances, token, from, Get(s.balances, token, from) - amount, t, vault);
        GetPut(b', token, to, Get(b', token, to) + amount, t, vault);
      }
    }
  }

  /** Every action keeps the vault solvent and managed. */
  lemma StepSolvent(vault: Address, s: State, a: Action)
    requires Solvent(vault, s) && Honest(vault, a)
    ensures Solvent(vault, Step(vault, s, a))
  {
    hide Get, Put, Move, Total;
    if Succeeds(vault, s, a) {
      match a
      case AddVaultManager(sender, account) =>
        assert sender in Step(vault, s, a).managers;
      case RemoveVaultManager(sender, account) =>
        assert sender in Step(vault, s, a).managers;
      case Deposit(sender, token, amount, _) => CreditKeeps(vault, s, token, sender, sender, amount);
      case Withdraw(sender, token, amount) => DebitKeeps(vault, s, token, sender, sender, amount);
      case Claim(sender, token, amount, proof) => DebitKeeps(vault, s, token, sender, proof.value, amount);
      case Transfer(sender, token, amount, to) => OutsideKeeps(vault, s, token, sender, to, amount);
    }
  }

  lemma {:induction false} RunSolvent(vault: Address, s: State, actions: seq<Action>)
    requires Solvent(vault, s) && forall k :: 0 <= k < |actions| ==> Honest(vault, actions[k])
    ensures Solvent(vault, Run(vault, s, actions))
    decreases |actions|
  {
    hide Solvent, Step, Honest;
    if actions != [] {
      assert Honest(vault, actions[0]);
      StepSolvent(vault, s, actions[0]);
      RunSolvent(vault, Step(vault, s, actions[0]), actions[1..]);
    }
  }

  /** In every run from deployment, the vault holds at least the sum of all recorded deposits of each token. */
  lemma AlwaysSolvent(vault: Address, deployer: Address, balances: Book, actions: seq<Action>)
    requires forall k :: 0 <= k < |actions| ==> Honest(vault, actions[k])
    ensures Solvent(vault, Run(vault, Initial(deployer, balances), actions))
  {
    var s := Initial(deployer, balances);
    assert deployer in s.managers;
    RunSolvent(vault, s, actions);
  }

  /** Solvency means that no owner's withdrawal fails for lack of tokens. */
  lemma WithdrawalsAreCovered(vault: Address, s: State, sender: Address, token: Address, amount: nat)
    requires Solvent(vault, s) && 0 < amount <= Get(s.deposits, token, sender)
    ensures Succeeds(vault, s, Withdraw(sender, token, amount))
  {
    var row := Row(s.deposits, token);
    SumRemove(row, sender);
    assert Total(s.deposits, token) <= Get(s.balances, token, vault);
  }

  // ---------------------------------------------------------------------------------------------
  // Accounting

  datatype Flow = Deposited | Withdrawn | Claimed

  /** What one action contributes to a flow of one user and token. */
  function Amount(vault: Address, s: State, a: Action, token: Address, user: Address, flow: Flow): (r: nat) {
    if !Succeeds(vault, s, a) then 0 else
    match a
    case Deposit(sender, t, amount, _) => if flow.Deposited? && t == token && sender == user then amount else 0
    case Withdraw(sender, t, amount) => if flow.Withdrawn? && t == token && sender == user then amount else 0
    case Claim(_, t, amount, proof) => if flow.Claimed? && t == token && proof.value == user then amount else 0
    case _ => 0
  }

  function TotalFlow(vault: Address, s: State, actions: seq<Action>, token: Address, user: Address,
                     flow: Flow): (r: nat)
    decreases |actions|
  {
    if actions == [] then 0
    else Amount(vault, s, actions[0], token, user, flow)
         + TotalFlow(vault, Step(vault, s, actions[0]), actions[1..], token, user, flow)
  }

  lemma StepAccounts(vault: Address, s: State, a: Action, token: Address, user: Address)
    ensures Get(Step(vault, s, a).deposits, token, user)
         == Get(s.deposits, token, user) + Amount(vault, s, a, token, user, Deposited)
          - Amount(vault, s, a, token, user, Withdrawn) - Amount(vault, s, a, token, user, Claimed)
  {
    hide Get, Put, Move;
    if Succeeds(vault, s, a) {
      match a
      case AddVaultManager(_, _) =>
      case RemoveVaultManager(_, _) =>
      case Transfer(_, _, _, _) =>
      case Deposit(sender, t, amount, _) =>
        GetPut(s.deposits, t, sender, Get(s.deposits, t, sender) + amount, token, user);
      case Withdraw(sender, t, amount) =>
        GetPut(s.deposits, t, sender, Get(s.deposits, t, sender) - amount, token, user);
      case Claim(_, t, amount, proof) =>
        GetPut(s.deposits, t, proof.value, Get(s.deposits, t, proof.value) - amount, token, user);
    }
  }

  lemma {:induction false} RunAccounts(vault: Address, s: State, actions: seq<Action>, token: Address, user: Address)
    ensures Get(Run(vault, s, actions).deposits, token, user)
         == Get(s.deposits, token, user) + TotalFlow(vault, s, actions, token, user, Deposited)
          - TotalFlow(vault, s, actions, token, user, Withdrawn)
          - TotalFlow(vault, s, actions, token, user, Claimed)
    decreases |actions|
  {
    hide Get, Step, Amount;
    if actions != [] {
      StepAccounts(vault, s, actions[0], token, user);
      RunAccounts(vault, Step(vault, s, actions[0]), actions[1..], token, user);
    }
  }

  /** In every run, a recorded deposit is what was deposited less what was withdrawn or claimed. */
  lemma DepositsAccounted(vault: Address, deployer: Address, balances: Book, actions: seq<Action>,
                          token: Address, user: Address)
    ensures var s := Initial(deployer, balances);
      Get(Run(vault, s, actions).deposits, token, user)
      == TotalFlow(vault, s, actions, token, user, Deposited)
       - TotalFlow(vault, s, actions, token, user, Withdrawn)
       - TotalFlow(vault, s, actions, token, user, Claimed)
  {
    RunAccounts(vault, Initial(deployer, balances), actions, token, user);
  }

  // ---------------------------------------------------------------------------------------------
  // Where the tokens go

  /** In a solvent state a withdrawal succeeds exactly up to the recorded deposit, and pays it to the depositor. */
  lemma WithdrawPays(vault: Address, s: State, sender: Address, token: Address, amount: nat, t: Address, a: Address)
    requires Solvent(vault, s) && sender != vault
    ensures var s' := Step(vault, s, Withdraw(sender, token, amount));
      var paid := if amount <= Get(s.deposits, token, sender) then amount else 0;
      && Get(s'.balances, t, a) == Get(s.balances, t, a)
           + (if t == token && a == sender then paid else if t == token && a == vault then -paid else 0)
      && Get(s'.deposits, t, a) == Get(s.deposits, t, a) - (if t == token && a == sender then paid else 0)
      && s'.managers == s.managers
  {
    if 0 < amount <= Get(s.deposits, token, sender) {
      WithdrawalsAreCovered(vault, s, sender, token, amount);
      hide Get, Put, Move, Solvent;
      GetMove(s.balances, token, vault, sender, amount, t, a);
      GetPut(s.deposits, token, sender, Get(s.deposits, token, sender) - amount, t, a);
    }
  }

  /** The same for a claim, which pays the manager and debits the owner whom the proof names. */
  lemma ClaimPays(vault: Address, s: State, sender: Address, token: Address, amount: nat, proof: Option<Address>,
                  t: Address, a: Address)
    requires Solvent(vault, s) && sender != vault
    ensures var s' := Step(vault, s, Claim(sender, token, amount, proof));
      var paid := if sender in s.managers && proof.Some? && amount <= Get(s.deposits, token, proof.value)
                  then amount else 0;
      && Get(s'.balances, t, a) == Get(s.balances, t, a)
           + (if t == token && a == sender then paid else if t == token && a == vault then -paid else 0)
      && Get(s'.deposits, t, a) == Get(s.deposits, t, a)
           - (if proof.Some? && t == token && a == proof.value then paid else 0)
      && s'.managers == s.managers
  {
    if sender in s.managers && proof.Some? && 0 < amount <= Get(s.deposits, token, proof.value) {
      WithdrawalsAreCovered(vault, s, proof.value, token, amount);
      hide Get, Put, Move, Solvent;
      GetMove(s.balances, token, vault, sender, amount, t, a);
      GetPut(s.deposits, token, proof.value, Get(s.deposits, token, proof.value) - amount, t, a);
    }
  }

  /** A deposit takes the tokens from the depositor and records them for the depositor, or does nothing. */
  lemma DepositTakes(vault: Address, s: State, sender: Address, token: Address, amount: nat, approved: bool,
                     t: Address, a: Address)
    requires sender != vault
    ensures var s' := Step(vault, s, Deposit(sender, token, amount, approved));
      var taken := if approved && amount <= Get(s.balances, token, sender)
                      && Get(s.deposits, token, sender) + amount < R then amount else 0;
      && Get(s'.balances, t, a) == Get(s.balances, t, a)
           + (if t == token && a == sender then -taken else if t == token && a == vault then taken else 0)
      && Get(s'.deposits, t, a) == Get(s.deposits, t, a) + (if t == token && a == sender then taken else 0)
      && s'.managers == s.managers
  {
    hide Get, Put, Move;
    if Succeeds(vault, s, Deposit(sender, token, amount, approved)) {
      GetMove(s.balances, token, sender, vault, amount, t, a);
      GetPut(s.deposits, token, sender, Get(s.deposits, token, sender) + amount, t, a);
    }
  }

  /** What the vault holds beyond what it owes. */
  ghost function Surplus(vault: Address, s: State, token: Address): (r: int) {
    Get(s.balances, token, vault) - Total(s.deposits, token)
  }

  /** What an action gives to the vault without a record: a foreign transfer to it. */
  function Gift(vault: Address, s: State, a: Action, token: Address): (r: nat) {
    match a
    case Transfer(sender, t, amount, to) =>
      if t == token && to == vault && amount <= Get(s.balances, token, sender) then amount else 0
    case _ => 0
  }

  function Gifts(vault: Address, s: State, actions: seq<Action>, token: Address): (r: nat)
    decreases |actions|
  {
    if actions == [] then 0
    else Gift(vault, s, actions[0], token) + Gifts(vault, Step(vault, s, actions[0]), actions[1..], token)
  }

  /** No call of the vault changes the surplus of any token; a gift raises it by its amount. */
  lemma StepSurplus(vault: Address, s: State, a: Action, token: Address)
    requires Honest(vault, a)
    ensures Surplus(vault, Step(vault, s, a), token) == Surplus(vault, s, token) + Gift(vault, s, a, token)
  {
    hide Get, Put, Move, Total;
    if Succeeds(vault, s, a) {
      match a
      case AddVaultManager(_, _) =>
      case RemoveVaultManager(_, _) =>
      case Deposit(sender, t, amount, _) =>
        GetMove(s.balances, t, sender, vault, amount, token, vault);
        TotalPut(s.deposits, t, sender, Get(s.deposits, t, sender) + amount, token);
      case Withdraw(sender, t, amount) =>
        GetMove(s.balances, t, vault, sender, amount, token, vault);
        TotalPut(s.deposits, t, sender, Get(s.deposits, t, sender) - amount, token);
      case Claim(sender, t, amount, proof) =>
        GetMove(s.balances, t, vault, sender, amount, token, vault);
        TotalPut(s.deposits, t, proof.value, Get(s.deposits, t, proof.value) - amount, token);
      case Transfer(sender, t, amount, to) =>
        if sender == to {
          MoveToSelf(s.balances, t, sender, amount, token, vault);
        } else {
          GetMove(s.balances, t, sender, to, amount, token, vault);
        }
    }
  }

  lemma MoveToSelf(b: Book, token: Address, from: Address, amount: nat, t: Address, a: Address)
    requires amount <= Get(b, token, from)
    ensures Get(Move(b, token, from, from, amount), t, a) == Get(b, t, a)
  {
    hide Get, Put;
    var b' := Put(b, token, from, Get(b, token, from) - amount);
    GetPut(b, token, from, Get(b, token, from) - amount, t, a);
    GetPut(b, token, from, Get(b, token, from) - amount, token, from);
    GetPut(b', token, from, Get(b', token, from) + amount, t, a);
  }

  lemma {:induction false} RunSurplus(vault: Address, s: State, actions: seq<Action>, token: Address)
    requires forall k :: 0 <= k < |actions| ==> Honest(vault, actions[k])
    ensures Surplus(vault, Run(vault, s, actions), token)
         == Surplus(vault, s, token) + Gifts(vault, s, actions, token)
    decreases |actions|
  {
    hide Surplus, Step, Honest, Gift;
    if actions != [] {
      assert Honest(vault, actions[0]);
      StepSurplus(vault, s, actions[0], token);
      RunSurplus(vault, Step(vault, s, actions[0]), actions[1..], token);
    }
  }

  /** In every run the vault holds exactly its deposits, its holdings at deployment and the gifts since. */
  lemma HoldingsAccounted(vault: Address, deployer: Address, balances: Book, actions: seq<Action>, token: Address)
    requires forall k :: 0 <= k < |actions| ==> Honest(vault, actions[k])
    ensures var s := Initial(deployer, balances);
      var s' := Run(vault, s, actions);
      Get(s'.balances, token, vault)
      == Total(s'.deposits, token) + Get(balances, token, vault) + Gifts(vault, s, actions, token)
  {
    hide Run, Get, Gifts, Honest;
    RunSurplus(vault, Initial(deployer, balances), actions, token);
    assert Row(map[], token) == map[];
  }

  lemma TotalMove(b: Book, token: Address, from: Address, to: Address, amount: nat, t: Address)
    requires amount <= Get(b, token, from)
    ensures Total(Move(b, token, from, to, amount), t) == Total(b, t)
  {
    hide Get, Put, Total;
    var b' := Put(b, token, from, Get(b, token, from) - amount);
    TotalPut(b, token, from, Get(b, token, from) - amount, t);
    TotalPut(b', token, to, Get(b', token, to) + amount, t);
  }

  /** No action creates or destroys tokens. */
  lemma {:induction false} TokensConserved(vault: Address, s: State, actions: seq<Action>, token: Address)
    ensures Total(Run(vault, s, actions).balances, token) == Total(s.balances, token)
    decreases |actions|
  {
    hide Get, Put, Move, Total;
    if actions != [] {
      var a := actions[0];
      if Succeeds(vault, s, a) {
        match a
        case AddVaultManager(_, _) =>
        case RemoveVaultManager(_, _) =>
        case Deposit(sender, t, amount, _) => TotalMove(s.balances, t, sender, vault, amount, token);
        case Withdraw(sender, t, amount) => TotalMove(s.balances, t, vault, sender, amount, token);
        case Claim(sender, t, amount, _) => TotalMove(s.balances, t, vault, sender, amount, token);
        case Transfer(sender, t, amount, to) => TotalMove(s.balances, t, sender, to, amount, token);
      }
      TokensConserved(vault, Step(vault, s, a), actions[1..], token);
    }
  }

  // ---------------------------------------------------------------------------------------------
  // Who may do what

  /** The state before action k of a run. */
  function At(vault: Address, s: State, actions: seq<Action>, k: nat): (r: State)
    requires k <= |actions|
  {
    Run(vault, s, actions[..k])
  }

  lemma {:induction false} RunSnoc(vault: Address, s: State, actions: seq<Action>, a: Action)
    ensures Run(vault, s, actions + [a]) == Step(vault, Run(vault, s, actions), a)
    decreases |actions|
  {
    hide Step;
    if actions == [] {
      assert actions + [a] == [a];
      assert [a][1..] == [];
    } else {
      assert (actions + [a])[1..] == actions[1..] + [a];
      RunSnoc(vault, Step(vault, s, actions[0]), actions[1..], a);
    }
  }

  lemma AtStep(vault: Address, s: State, actions: seq<Action>, k: nat)
    requires k < |actions|
    ensures At(vault, s, actions, k + 1) == Step(vault, At(vault, s, actions, k), actions[k])
  {
    hide Step, Run;
    assert actions[..k + 1] == actions[..k] + [actions[k]];
    RunSnoc(vault, s, actions[..k], actions[k]);
  }

  /** The exact effect of the two calls on the set of managers. */
  lemma ManagerCalls(vault: Address, s: State, sender: Address, account: Address, m: Address)
    ensures m in Step(vault, s, AddVaultManager(sender, account)).managers
       <==> m in s.managers || (m == account && account != 0 && sender in s.managers)
    ensures m in Step(vault, s, RemoveVaultManager(sender, account)).managers
       <==> m in s.managers && !(m == account && sender in s.managers && sender != account)
  {
  }

  /** At every step of a run, a deposit falls only by its owner's withdrawal or by a current manager's claim. */
  lemma DebitsAuthorised(vault: Address, s: State, actions: seq<Action>, k: nat, token: Address, user: Address)
    requires k < |actions|
    requires Get(At(vault, s, actions, k + 1).deposits, token, user)
           < Get(At(vault, s, actions, k).deposits, token, user)
    ensures var a := actions[k];
      || (a.Withdraw? && a.sender == user && a.token == token)
      || (a.Claim? && a.sender in At(vault, s, actions, k).managers && a.token == token && a.proof == Some(user))
  {
    AtStep(vault, s, actions, k);
    hide At, Get, Put, Move;
    StepAccounts(vault, At(vault, s, actions, k), actions[k], token, user);
  }

  /** In every run, a manager is the deployer or was added by a manager of that moment. */
  lemma {:induction false} ManagersAuthorised(vault: Address, deployer: Address, balances: Book, actions: seq<Action>,
                                              n: nat, m: Address)
    requires n <= |actions| && m in At(vault, Initial(deployer, balances), actions, n).managers && m != deployer
    ensures m != 0
    ensures exists k :: 0 <= k < n && AddedAt(vault, Initial(deployer, balances), actions, k, m)
    decreases n
  {
    var s := Initial(deployer, balances);
    if n > 0 {
      AtStep(vault, s, actions, n - 1);
      hide At;
      if m in At(vault, s, actions, n - 1).managers {
        ManagersAuthorised(vault, deployer, balances, actions, n - 1, m);
      } else {
        assert AddedAt(vault, s, actions, n - 1, m);
      }
    }
  }

  /** Action k adds the manager m, on behalf of a manager of that moment. */
  ghost predicate AddedAt(vault: Address, s: State, actions: seq<Action>, k: nat, m: Address)
    requires k < |actions|
  {
    && actions[k].AddVaultManager? && actions[k].account == m
    && actions[k].sender in At(vault, s, actions, k).managers
  }

  // ---------------------------------------------------------------------------------------------
  // The contract

  /** The ledgers of all tokens. */
  class Tokens {
    var balances: Book

    constructor (initial: Book)
      ensures balances == initial
    {
      balances := initial;
    }

    /** Moves exactly the amount, or refuses. */
    method TransferExactly(token: Address, from: Address, to: Address, amount: nat) returns (ok: bool)
      modifies this
      ensures ok <==> amount <= Get(old(balances), token, from)
      ensures balances == if ok then Move(old(balances), token, from, to, amount) else old(balances)
    {
      ok := amount <= Get(balances, token, from);
      if ok {
        balances := Move(balances, token, from, to, amount);
      }
    }
  }

  /** The vault; a method returns false where the contract reverts, and then changes nothing. */
  class EnclaveTokenVault {
    const self: Address
    const tokens: Tokens
    var deposits: Book
    var managers: set<Address>

    function Value(): (r: State)
      reads this, tokens
    {
      State(deposits, managers, tokens.balances)
    }

    constructor (address: Address, ledger: Tokens, deployer: Address)
      ensures self == address && tokens == ledger
      ensures Value() == Initial(deployer, ledger.balances)
    {
      self := address;
      tokens := ledger;
      deposits := map[];
      managers := {deployer};
    }

    method AddVaultManager(sender: Address, account: Address) returns (ok: bool)
      modifies this
      ensures ok == Succeeds(self, old(Value()), Action.AddVaultManager(sender, account))
      ensures Value() == Step(self, old(Value()), Action.AddVaultManager(sender, account))
    {
      if sender !in managers || account == 0 || account in managers { return false; }
      managers := managers + {account};
      return true;
    }

    method RemoveVaultManager(sender: Address, account: Address) returns (ok: bool)
      modifies this
      ensures ok == Succeeds(self, old(Value()), Action.RemoveVaultManager(sender, account))
      ensures Value() == Step(self, old(Value()), Action.RemoveVaultManager(sender, account))
    {
      if sender !in managers || account !in managers || sender == account { return false; }
      managers := managers - {account};
      return true;
    }

    /** The approval is the answer of the token's allowance check. */
    method Deposit(sender: Address, token: Address, amount: nat, approved: bool) returns (ok: bool)
      modifies this, tokens
      ensures ok == Succeeds(self, old(Value()), Action.Deposit(sender, token, amount, approved))
      ensures Value() == Step(self, old(Value()), Action.Deposit(sender, token, amount, approved))
    {
      hide Get, Put, Move;
      if amount == 0 || !approved { return false; }
      var before := tokens.balances;
      ok := tokens.TransferExactly(token, sender, self, amount);
      if !ok { return; }
      if Get(deposits, token, sender) + amount >= R {
        tokens.balances := before;
        return false;
      }
      deposits := Put(deposits, token, sender, Get(deposits, token, sender) + amount);
    }

    method Withdraw(sender: Address, token: Address, amount: nat) returns (ok: bool)
      modifies this, tokens
      ensures ok == Succeeds(self, old(Value()), Action.Withdraw(sender, token, amount))
      ensures Value() == Step(self, old(Value()), Action.Withdraw(sender, token, amount))
    {
      hide Get, Put, Move;
      if amount == 0 || amount > Get(deposits, token, sender) { return false; }
      var before := deposits;
      deposits := Put(deposits, token, sender, Get(deposits, token, sender) - amount);
      ok := tokens.TransferExactly(token, self, sender, amount);
      if !ok {
        deposits := before;
      }
    }

    method Claim(sender: Address, token: Address, amount: nat, proof: Option<Address>) returns (ok: bool)
      modifies this, tokens
      ensures ok == Succeeds(self, old(Value()), Action.Claim(sender, token, amount, proof))
      ensures Value() == Step(self, old(Value()), Action.Claim(sender, token, amount, proof))
    {
      hide Get, Put, Move;
      if sender !in managers || amount == 0 || proof.None? { return false; }
      var owner := proof.value;
      if amount > Get(deposits, token, owner) { return false; }
      var before := deposits;
      deposits := Put(deposits, token, owner, Get(deposits, token, owner) - amount);
      ok := tokens.TransferExactly(token, self, sender, amount);
      if !ok {
        deposits := before;
      }
    }
  }

}
