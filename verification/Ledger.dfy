/**
  Execution of transactions over account copies (code/go/pkg/state/executor.go, memory.go and
  types.go).

  The state database hands out copies of its accounts and stores copies; the executor changes its
  copies and writes both back, the receiver last.  Main results: what every transaction type does to
  the supply and exactly when it is the promised amount, over single transactions and whole runs with
  block rewards; failed transactions leave the state untouched; third parties never change; and, as
  nothing advances a nonce, how often one transaction can be executed.
 */
module Ledger {

  type Bytes = seq<bv8>
  type Address = Bytes

  const UINT64: nat := 0x1_0000_0000_0000_0000
  const NEW_SENDER_BALANCE: nat := 10_000_000_000_000
  const MAX_DATA: nat := 1024 * 1024

  newtype uint64 = n: int | 0 <= n < 0x1_0000_0000_0000_0000

  datatype Option<T> = None | Some(value: T)

  datatype Funds = Funds(nonce: nat, balance: nat, codeHash: Bytes, storageRoot: Bytes)

  type Accounts = map<Address, Funds>

  /** `Unknown` is any code outside the seven types. */
  datatype TxType = Online | Offline | Migration | Stake | Unstake | Governance | Vote | Unknown

  /** `dataSize` stands for the payload; signatures and hashes play no part in execution. */
  datatype Transaction = Transaction(kind: TxType, from: Address, to: Address, amount: nat, fee: nat, nonce: nat, dataSize: nat)

  datatype Outcome = Success | InvalidNonce | InvalidTransaction | UnsupportedType | InsufficientBalance | DataRequired

  // ---------- Execution on values ----------

  /** net.IP's To16: a four-byte address is mapped, sixteen bytes stay, anything else is no address. */
  function To16(ip: Bytes): Address {
    if |ip| == 4 then [0, 0, 0, 0, 0, 0, 0, 0, 0, 0, 0xFF, 0xFF] + ip else if |ip| == 16 then ip else []
  }

  predicate IsTransfer(tx: Transaction) {
    tx.kind.Online? || tx.kind.Offline?
  }

  predicate ValidTransaction(tx: Transaction) {
    && |tx.from| == 16 && |tx.to| == 16
    && tx.amount != 0
    && (tx.fee != 0 || tx.kind.Online?)
    && tx.dataSize <= MAX_DATA
  }

  function NewFunds(balance: nat): Funds {
    Funds(0, balance, [], [])
  }

  /** A sender without an account is treated as a new one with a starting balance. */
  function SenderOf(accounts: Accounts, from: Address): Funds {
    if from in accounts then accounts[from] else NewFunds(NEW_SENDER_BALANCE)
  }

  function ReceiverOf(accounts: Accounts, to: Address): Funds {
    if to in accounts then accounts[to] else NewFunds(0)
  }

  /** What the sender must have: nothing is asked of the types that move no coins. */
  function Cost(tx: Transaction): nat {
    if IsTransfer(tx) then tx.amount + tx.fee else if tx.kind.Stake? then tx.amount else 0
  }

  function Verdict(accounts: Accounts, tx: Transaction): Outcome {
    var sender := SenderOf(accounts, To16(tx.from));
    if tx.nonce != sender.nonce then InvalidNonce
    else if !ValidTransaction(tx) then InvalidTransaction
    else if tx.kind.Unknown? then UnsupportedType
    else if sender.balance < Cost(tx) then InsufficientBalance
    else if tx.kind.Governance? && tx.dataSize == 0 then DataRequired
    else Success
  }

  /** Every outcome in terms of the accounts: the nonce is checked before the transaction, the balance after it. */
  lemma OutcomeExactlyWhen(accounts: Accounts, tx: Transaction)
    ensures var from := if |tx.from| == 4 then [0, 0, 0, 0, 0, 0, 0, 0, 0, 0, 255, 255] + tx.from else if |tx.from| == 16 then tx.from else [];
      var nonce := if from in accounts then accounts[from].nonce else 0;
      var balance := if from in accounts then accounts[from].balance else 10_000_000_000_000;
      var valid := |tx.from| == 16 && |tx.to| == 16 && tx.amount > 0 && (tx.fee > 0 || tx.kind.Online?) && tx.dataSize <= 1_048_576;
      var poor := ((tx.kind.Online? || tx.kind.Offline?) && balance < tx.amount + tx.fee) || (tx.kind.Stake? && balance < tx.amount);
      var empty := tx.kind.Governance? && tx.dataSize == 0;
      var outcome := Verdict(accounts, tx);
      && (outcome.InvalidNonce? <==> tx.nonce != nonce)
      && (outcome.InvalidTransaction? <==> tx.nonce == nonce && !valid)
      && (outcome.UnsupportedType? <==> tx.nonce == nonce && valid && tx.kind.Unknown?)
      && (outcome.InsufficientBalance? <==> tx.nonce == nonce && valid && poor)
      && (outcome.DataRequired? <==> tx.nonce == nonce && valid && empty)
      && (outcome.Success? <==> tx.nonce == nonce && valid && !tx.kind.Unknown? && !poor && !empty)
  {
  }

  /** Of two transactions that differ only in their nonce at most one succeeds on the same accounts. */
  lemma OneNonceSucceeds(accounts: Accounts, tx: Transaction, nonce: nat)
    requires nonce != tx.nonce
    ensures !(Verdict(accounts, tx).Success? && Verdict(accounts, tx.(nonce := nonce)).Success?)
  {
  }

  function Debited(sender: Funds, tx: Transaction): Funds
    requires Cost(tx) <= sender.balance
  {
    if tx.kind.Migration? then Funds(sender.nonce, 0, [], []) else sender.(balance := sender.balance - Cost(tx))
  }

  function Credited(receiver: Funds, tx: Transaction): Funds {
    if IsTransfer(tx) then receiver.(balance := (receiver.balance + tx.amount) % UINT64) else receiver
  }

  /**
    Both copies are taken before either is written back, and the receiver's is written last: what a
    migration or an unstaking itself writes there is lost.
   */
  function Execute(accounts: Accounts, tx: Transaction): Accounts {
    if !Verdict(accounts, tx).Success? then accounts else
      accounts[tx.from := Debited(SenderOf(accounts, tx.from), tx)]
              [tx.to := Credited(ReceiverOf(accounts, tx.to), tx)]
  }

  // ---------- The supply ----------

  ghost function Supply(accounts: Accounts): nat {
    if accounts.Keys == {} then 0 else
      var a :| a in accounts.Keys;
      accounts[a].balance + Supply(accounts - {a})
  }

  lemma {:induction false} SupplyWithout(accounts: Accounts, a: Address)
    requires a in accounts
    ensures Supply(accounts) == accounts[a].balance + Supply(accounts - {a})
    decreases |accounts|
  {
    var b :| b in accounts.Keys && Supply(accounts) == accounts[b].balance + Supply(accounts - {b});
    if a != b {
      SupplyWithout(accounts - {b}, a);
      SupplyWithout(accounts - {a}, b);
      assert (accounts - {b}) - {a} == (accounts - {a}) - {b};
    }
  }

  lemma SupplySet(accounts: Accounts, a: Address, funds: Funds)
    ensures Supply(accounts[a := funds]) ==
            Supply(accounts) - (if a in accounts then accounts[a].balance else 0) + funds.balance
  {
    SupplyWithout(accounts[a := funds], a);
    if a in accounts {
      SupplyWithout(accounts, a);
      assert accounts[a := funds] - {a} == accounts - {a};
    } else {
      assert accounts[a := funds] - {a} == accounts;
    }
  }

  lemma BalanceWithinSupply(accounts: Accounts, a: Address)
    requires a in accounts
    ensures accounts[a].balance <= Supply(accounts)
  {
    SupplyWithout(accounts, a);
  }

  lemma TwoBalancesWithinSupply(accounts: Accounts, a: Address, b: Address)
    requires a in accounts && a != b
    ensures accounts[a].balance + (if b in accounts then accounts[b].balance else 0) <= Supply(accounts)
  {
    SupplyWithout(accounts, a);
    if b in accounts {
      SupplyWithout(accounts - {a}, b);
    }
  }

  /** What a successful transaction does to the supply in each of the four situations. */
  lemma SupplyAfter(accounts: Accounts, tx: Transaction)
    requires Verdict(accounts, tx).Success?
    ensures var before := if tx.from in accounts then accounts[tx.from].balance else 0;
      var receiver := ReceiverOf(accounts, tx.to);
      Supply(Execute(accounts, tx)) ==
        if tx.from == tx.to then Supply(accounts) - before + Credited(receiver, tx).balance
        else Supply(accounts) - before + Debited(SenderOf(accounts, tx.from), tx).balance
             - receiver.balance + Credited(receiver, tx).balance
  {
    hide Supply;
    var debited := Debited(SenderOf(accounts, tx.from), tx);
    SupplySet(accounts, tx.from, debited);
    SupplySet(accounts[tx.from := debited], tx.to, Credited(ReceiverOf(accounts, tx.to), tx));
  }

  /** The balances of a database: each fits in 64 bits. */
  ghost predicate InRange(accounts: Accounts) {
    forall a :: a in accounts ==> accounts[a].balance < UINT64
  }

  /** What leaves the supply: a transfer's fee, a stake, and everything a migration moves. */
  function Burned(accounts: Accounts, tx: Transaction): nat {
    if IsTransfer(tx) then tx.fee
    else if tx.kind.Stake? then tx.amount
    else if tx.kind.Migration? then SenderOf(accounts, tx.from).balance
    else 0
  }

  /**
    The sender has an account and is not the receiver; or sends to itself, without a transfer and
    with nothing to burn.
   */
  predicate Ordinary(accounts: Accounts, tx: Transaction) {
    if tx.from != tx.to then tx.from in accounts else !IsTransfer(tx) && Burned(accounts, tx) == 0
  }

  /** A successful transaction of any type costs the supply exactly what it burns if and only if it is ordinary. */
  lemma ConservedExactlyWhen(accounts: Accounts, tx: Transaction)
    requires Supply(accounts) < UINT64 && Verdict(accounts, tx).Success?
    ensures Supply(Execute(accounts, tx)) == Supply(accounts) - Burned(accounts, tx) <==> Ordinary(accounts, tx)
  {
    hide Supply, Execute, Verdict, ValidTransaction;
    SuccessFacts(accounts, tx);
    SupplyAfter(accounts, tx);
    if tx.from in accounts {
      BalanceWithinSupply(accounts, tx.from);
    }
    if tx.to in accounts {
      BalanceWithinSupply(accounts, tx.to);
    }
    if tx.from in accounts && tx.from != tx.to {
      TwoBalancesWithinSupply(accounts, tx.from, tx.to);
    }
  }

  lemma SuccessFacts(accounts: Accounts, tx: Transaction)
    requires Verdict(accounts, tx).Success?
    ensures tx.amount > 0 && Cost(tx) <= SenderOf(accounts, tx.from).balance && To16(tx.from) == tx.from
  {
  }

  /** A successful transfer between two accounts moves exactly the amounts and touches nobody else. */
  lemma TransferIsExact(accounts: Accounts, tx: Transaction)
    requires Supply(accounts) < UINT64 && Verdict(accounts, tx).Success?
    requires IsTransfer(tx) && tx.from in accounts && tx.from != tx.to
    ensures var after := Execute(accounts, tx);
      && after.Keys == accounts.Keys + {tx.to}
      && after[tx.from] == accounts[tx.from].(balance := accounts[tx.from].balance - tx.amount - tx.fee)
      && after[tx.to] == ReceiverOf(accounts, tx.to).(balance := ReceiverOf(accounts, tx.to).balance + tx.amount)
      && forall a :: a in accounts && a != tx.from && a != tx.to ==> after[a] == accounts[a]
  {
    hide Supply;
    TwoBalancesWithinSupply(accounts, tx.from, tx.to);
  }

  /** A stake takes its amount from the sender and nothing else of it; the receiver is unchanged, or new and empty. */
  lemma StakeIsExact(accounts: Accounts, tx: Transaction)
    requires Verdict(accounts, tx).Success? && tx.kind.Stake? && tx.from != tx.to && tx.from in accounts
    ensures Execute(accounts, tx) ==
            accounts[tx.from := accounts[tx.from].(balance := accounts[tx.from].balance - tx.amount)]
                    [tx.to := if tx.to in accounts then accounts[tx.to] else Funds(0, 0, [], [])]
  {
  }

  /** A proposal, a vote or an unstaking between two accounts changes neither. */
  lemma NothingMoves(accounts: Accounts, tx: Transaction)
    requires Verdict(accounts, tx).Success? && (tx.kind.Governance? || tx.kind.Vote? || tx.kind.Unstake?)
    requires tx.from in accounts && tx.to in accounts
    ensures Execute(accounts, tx) == accounts
  {
  }

  /**
    A migration empties the sender and nothing arrives: the receiver ends with the sender's balance,
    code and storage, as promised, exactly when it had them before.
   */
  lemma MigrationArrivesExactlyWhen(accounts: Accounts, tx: Transaction)
    requires Verdict(accounts, tx).Success? && tx.kind.Migration? && tx.from != tx.to
    ensures var after, sender, receiver := Execute(accounts, tx), SenderOf(accounts, tx.from), ReceiverOf(accounts, tx.to);
      && after[tx.from] == Funds(sender.nonce, 0, [], [])
      && after[tx.to] == receiver
      && (after[tx.to] == Funds(0, sender.balance, sender.codeHash, sender.storageRoot)
          <==> receiver == Funds(0, sender.balance, sender.codeHash, sender.storageRoot))
  {
  }

  /** An unstaking credits nobody: every account there was is unchanged. */
  lemma UnstakeReturnsNothing(accounts: Accounts, tx: Transaction)
    requires Verdict(accounts, tx).Success? && tx.kind.Unstake?
    ensures forall a :: a in accounts ==> a in Execute(accounts, tx) && Execute(accounts, tx)[a] == accounts[a]
    ensures tx.to !in accounts ==> Execute(accounts, tx)[tx.to].balance == 0
  {
  }

  lemma FailureChangesNothing(accounts: Accounts, tx: Transaction)
    requires !Verdict(accounts, tx).Success?
    ensures Execute(accounts, tx) == accounts
  {
  }

  /** ApplyBlockReward: a coinbase without an account gets one. */
  function Rewarded(accounts: Accounts, coinbase: Address, reward: nat): Accounts {
    var account := ReceiverOf(accounts, coinbase);
    accounts[coinbase := account.(balance := (account.balance + reward) % UINT64)]
  }

  /** A reward adds exactly itself to the supply if and only if the coinbase's balance does not wrap. */
  lemma RewardAddsExactlyWhen(accounts: Accounts, coinbase: Address, reward: nat)
    requires reward < UINT64 && ReceiverOf(accounts, coinbase).balance < UINT64
    ensures Supply(Rewarded(accounts, coinbase, reward)) == Supply(accounts) + reward
            <==> ReceiverOf(accounts, coinbase).balance + reward < UINT64
    ensures var after := Rewarded(accounts, coinbase, reward);
      && after[coinbase] == ReceiverOf(accounts, coinbase).(balance := after[coinbase].balance)
      && forall a :: a != coinbase ==> (a in after <==> a in accounts) && (a in accounts ==> after[a] == accounts[a])
  {
    hide Supply;
    SupplySet(accounts, coinbase, Rewarded(accounts, coinbase, reward)[coinbase]);
  }

  // ---------- Whole runs ----------

  datatype Event = Apply(tx: Transaction) | Reward(coinbase: Address, amount: nat)

  function Step(accounts: Accounts, e: Event): Accounts {
    match e
    case Apply(tx) => Execute(accounts, tx)
    case Reward(coinbase, amount) => Rewarded(accounts, coinbase, amount)
  }

  function Run(accounts: Accounts, events: seq<Event>): Accounts {
    if events == [] then accounts else Step(Run(accounts, events[..|events| - 1]), events[|events| - 1])
  }

  /** All rewards of a run. */
  function Rewards(events: seq<Event>): nat {
    if events == [] then 0 else
      Rewards(events[..|events| - 1]) + match events[|events| - 1] case Reward(_, amount) => amount case Apply(_) => 0
  }

  function BurnedBy(accounts: Accounts, e: Event): nat {
    if e.Apply? && Verdict(accounts, e.tx).Success? then Burned(accounts, e.tx) else 0
  }

  /** What the successful transactions of a run burn. */
  function AllBurned(accounts: Accounts, events: seq<Event>): nat {
    if events == [] then 0 else
      AllBurned(accounts, events[..|events| - 1]) + BurnedBy(Run(accounts, events[..|events| - 1]), events[|events| - 1])
  }

  predicate OrdinaryEvent(accounts: Accounts, e: Event) {
    e.Apply? && Verdict(accounts, e.tx).Success? ==> Ordinary(accounts, e.tx)
  }

  /** Every transaction that succeeds is ordinary at that point. */
  ghost predicate OrdinaryRun(accounts: Accounts, events: seq<Event>) {
    events == [] ||
    (OrdinaryRun(accounts, events[..|events| - 1])
     && OrdinaryEvent(Run(accounts, events[..|events| - 1]), events[|events| - 1]))
  }

  ghost predicate Accounted(accounts: Accounts, events: seq<Event>) {
    Supply(Run(accounts, events)) == Supply(accounts) + Rewards(events) - AllBurned(accounts, events)
  }

  lemma AccountedStep(accounts: Accounts, e: Event)
    requires Supply(accounts) + (if e.Reward? then e.amount else 0) < UINT64
    ensures Supply(Step(accounts, e)) == Supply(accounts) + (if e.Reward? then e.amount else 0) - BurnedBy(accounts, e)
            <==> OrdinaryEvent(accounts, e)
  {
    hide Supply, Execute, Verdict, Rewarded, Burned, Ordinary;
    match e
    case Apply(tx) =>
      if Verdict(accounts, tx).Success? {
        ConservedExactlyWhen(accounts, tx);
      } else {
        FailureChangesNothing(accounts, tx);
      }
    case Reward(coinbase, amount) =>
      if coinbase in accounts {
        BalanceWithinSupply(accounts, coinbase);
      }
      RewardAddsExactlyWhen(accounts, coinbase, amount);
  }

  /** Over a run of ordinary transactions the supply grows by the rewards and shrinks by what was burned; no balance wraps. */
  lemma {:induction false} SupplyOverRuns(accounts: Accounts, events: seq<Event>)
    requires Supply(accounts) + Rewards(events) < UINT64 && OrdinaryRun(accounts, events)
    ensures Accounted(accounts, events)
    ensures InRange(Run(accounts, events))
  {
    hide Verdict, Step, Supply, BurnedBy, OrdinaryEvent;
    if events != [] {
      SupplyOverRuns(accounts, events[..|events| - 1]);
      AccountedStep(Run(accounts, events[..|events| - 1]), events[|events| - 1]);
    }
    forall a | a in Run(accounts, events) ensures Run(accounts, events)[a].balance < UINT64 {
      BalanceWithinSupply(Run(accounts, events), a);
    }
  }

  /** The supply is accounted for at every point of a run if and only if all its transactions are ordinary. */
  lemma {:induction false} SupplyExactlyWhenOrdinary(accounts: Accounts, events: seq<Event>)
    requires Supply(accounts) + Rewards(events) < UINT64
    ensures (forall n: nat :: n <= |events| ==> Accounted(accounts, events[..n])) <==> OrdinaryRun(accounts, events)
  {
    hide Verdict, Step, Supply, BurnedBy, OrdinaryEvent;
    if events == [] {
      assert events[..0] == [];
    } else {
      var m := |events| - 1;
      var init := events[..m];
      SupplyExactlyWhenOrdinary(accounts, init);
      assert forall n: nat :: n <= m ==> init[..n] == events[..n];
      assert events[..m + 1] == events;
      if OrdinaryRun(accounts, init) {
        SupplyOverRuns(accounts, init);
        AccountedStep(Run(accounts, init), events[m]);
      }
    }
  }

  ghost predicate TakesPart(e: Event, a: Address) {
    match e
    case Apply(tx) => a == tx.from || a == tx.to
    case Reward(coinbase, _) => a == coinbase
  }

  /** An account that takes part in nothing of a run is the same after it. */
  lemma {:induction false} ThirdPartiesKeepTheirs(accounts: Accounts, events: seq<Event>, a: Address)
    requires forall e :: e in events ==> !TakesPart(e, a)
    ensures a in Run(accounts, events) <==> a in accounts
    ensures a in accounts ==> Run(accounts, events)[a] == accounts[a]
  {
    if events != [] {
      ThirdPartiesKeepTheirs(accounts, events[..|events| - 1], a);
      assert events[|events| - 1] in events;
    }
  }

  // ---------- Repeating one transaction ----------

  function Repeated(accounts: Accounts, tx: Transaction, n: nat): Accounts {
    if n == 0 then accounts else Execute(Repeated(accounts, tx, n - 1), tx)
  }

  /** How many of `n` times a cost fits into a balance. */
  function Times(balance: nat, cost: nat, n: nat): nat {
    if cost == 0 || n <= balance / cost then n else balance / cost
  }

  lemma OneRepetition(accounts: Accounts, tx: Transaction)
    requires tx.from != tx.to && !tx.kind.Migration?
    ensures Verdict(accounts, tx).Success? ==>
              SenderOf(Execute(accounts, tx), tx.from)
              == SenderOf(accounts, tx.from).(balance := SenderOf(accounts, tx.from).balance - Cost(tx))
    ensures !Verdict(accounts, tx).Success? ==> Execute(accounts, tx) == accounts
  {
  }

  lemma VerdictDependsOnSender(a: Accounts, b: Accounts, tx: Transaction)
    requires Verdict(a, tx).Success?
    requires SenderOf(b, tx.from).nonce == SenderOf(a, tx.from).nonce
    ensures Verdict(b, tx).Success? <==> SenderOf(b, tx.from).balance >= Cost(tx)
  {
  }

  /**
    No nonce is ever advanced, so a successful transaction succeeds again for as long as the sender
    can pay: a transfer or stake as often as its cost fits into the balance, the types that cost
    nothing for ever.
   */
  lemma {:induction false} SucceedsAgainExactlyWhen(accounts: Accounts, tx: Transaction, n: nat)
    requires Verdict(accounts, tx).Success? && tx.from != tx.to && !tx.kind.Migration?
    ensures var sender, after := SenderOf(accounts, tx.from), Repeated(accounts, tx, n);
      && (Verdict(after, tx).Success? <==> (n + 1) * Cost(tx) <= sender.balance)
      && SenderOf(after, tx.from).nonce == sender.nonce
      && SenderOf(after, tx.from).balance == sender.balance - Times(sender.balance, Cost(tx), n) * Cost(tx)
  {
    hide Verdict, Execute, SenderOf, Cost;
    var sender, cost := SenderOf(accounts, tx.from), Cost(tx);
    if n > 0 {
      SucceedsAgainExactlyWhen(accounts, tx, n - 1);
      OneRepetition(Repeated(accounts, tx, n - 1), tx);
    }
    VerdictDependsOnSender(accounts, Repeated(accounts, tx, n), tx);
    VerdictDependsOnSender(accounts, accounts, tx);
    if cost > 0 {
      TimesFit(sender.balance, cost, n);
      TimesFit(sender.balance, cost, n + 1);
      TimesFit(sender.balance, cost, sender.balance / cost + 1);
      OneMoreTime(n, cost);
      if n > 0 {
        OneMoreTime(n - 1, cost);
      }
    }
  }

  lemma OneMoreTime(n: nat, cost: nat)
    ensures (n + 1) * cost == n * cost + cost
  {
  }

  lemma TimesFit(balance: nat, cost: nat, n: nat)
    requires cost > 0
    ensures n * cost <= balance <==> n <= balance / cost
    ensures balance < (balance / cost + 1) * cost
  {
    var q := balance / cost;
    assert balance == cost * q + balance % cost;
    if n <= q {
      assert n * cost <= q * cost;
    } else {
      assert n * cost >= (q + 1) * cost;
    }
  }

  // ---------- Accounts, database and executor in place ----------

  class Account {
    var nonce: uint64
    var balance: uint64
    var codeHash: Bytes
    var storageRoot: Bytes

    constructor (nonce: uint64, balance: uint64, codeHash: Bytes, storageRoot: Bytes)
      ensures View() == Funds(nonce as nat, balance as nat, codeHash, storageRoot)
    {
      this.nonce, this.balance, this.codeHash, this.storageRoot := nonce, balance, codeHash, storageRoot;
    }

    function View(): Funds
      reads this
    {
      Funds(nonce as nat, balance as nat, codeHash, storageRoot)
    }

    method Copy() returns (copy: Account)
      ensures fresh(copy) && copy.View() == View()
    {
      copy := new Account(nonce, balance, codeHash, storageRoot);
    }

    method AddBalance(amount: uint64)
      modifies this
      ensures View() == old(View()).(balance := (old(View()).balance + amount as nat) % UINT64)
    {
      balance := ((balance as int + amount as int) % 0x1_0000_0000_0000_0000) as uint64;
    }

    /** Refuses, without a change, to go below zero. */
    method SubBalance(amount: uint64) returns (ok: bool)
      modifies this
      ensures ok <==> amount <= old(balance)
      ensures View() == if ok then old(View()).(balance := old(View()).balance - amount as nat) else old(View())
    {
      if balance < amount {
        return false;
      }
      balance := balance - amount;
      return true;
    }
  }

  newtype byte = n: int | 0 <= n < 256

  /** The state root: the low 32 bits of the number of accounts, most significant byte first, and zeros. */
  function CountRoot(count: nat): (root: seq<byte>)
    ensures |root| == 32
  {
    var low := count % 0x1_0000_0000;
    [Shifted(low, 3), Shifted(low, 2), Shifted(low, 1), Shifted(low, 0)] + seq(28, _ => 0)
  }

  /** The lowest byte after shifting right by `bytes` bytes. */
  function Shifted(n: nat, bytes: nat): byte {
    if bytes == 0 then (n % 256) as byte else Shifted(n / 256, bytes - 1)
  }

  /** Two states have the same root exactly when their numbers of accounts agree modulo 2^32. */
  lemma SameRootExactlyWhen(a: nat, b: nat)
    ensures CountRoot(a) == CountRoot(b) <==> a % 0x1_0000_0000 == b % 0x1_0000_0000
  {
    var m, n := a % 0x1_0000_0000, b % 0x1_0000_0000;
    var x, y := CountRoot(a), CountRoot(b);
    if x == y {
      assert x[0] == y[0] && x[1] == y[1] && x[2] == y[2] && x[3] == y[3];
      SameBytes(m, n, 3);
    }
  }

  ghost function Pow256(n: nat): nat {
    if n == 0 then 1 else 256 * Pow256(n - 1)
  }

  lemma {:induction false} SameBytes(m: nat, n: nat, top: nat)
    requires m < Pow256(top + 1) && n < Pow256(top + 1)
    requires forall k: nat :: k <= top ==> Shifted(m, k) == Shifted(n, k)
    ensures m == n
  {
    assert Shifted(m, 0) == Shifted(n, 0);
    if top > 0 {
      forall k: nat | k <= top - 1 ensures Shifted(m / 256, k) == Shifted(n / 256, k) {
        assert Shifted(m, k + 1) == Shifted(n, k + 1);
      }
      SameBytes(m / 256, n / 256, top - 1);
    }
  }

  /** The root's first four bytes spell that number, most significant first; the others are zero. */
  lemma RootSpellsCount(count: nat)
    ensures var r := CountRoot(count);
      && ((r[0] as nat * 256 + r[1] as nat) * 256 + r[2] as nat) * 256 + r[3] as nat == count % 0x1_0000_0000
      && forall i :: 4 <= i < 32 ==> r[i] == 0
  {
    var low := count % 0x1_0000_0000;
    var a := low / 256;
    var b := a / 256;
    var c := b / 256;
    assert Shifted(low, 1) == Shifted(a, 0) && Shifted(low, 2) == Shifted(a, 1) == Shifted(b, 0);
    assert Shifted(low, 3) == Shifted(a, 2) == Shifted(b, 1) == Shifted(c, 0);
    assert c < 256;
  }

  class MemoryStateDB {
    var accounts: map<Address, Account>
    var rootHash: seq<byte>

    ghost function View(): Accounts
      reads this, accounts.Values
    {
      map a | a in accounts :: accounts[a].View()
    }

    constructor ()
      ensures View() == map[] && rootHash == CountRoot(0)
    {
      accounts := map[];
      rootHash := seq(32, _ => 0);
    }

    /** Hands out a copy, so that changing it does not change the database. */
    method GetAccount(address: Address) returns (account: Option<Account>)
      ensures account.Some? <==> address in View()
      ensures account.Some? ==> fresh(account.value) && account.value.View() == View()[address]
    {
      if address !in accounts {
        return None;
      }
      var copy := accounts[address].Copy();
      return Some(copy);
    }

    /** Stores a copy; deletes the account when there is none to store, and then leaves the root as it is. */
    method SetAccount(address: Address, account: Account?)
      modifies this
      ensures View() == if account == null then old(View()) - {address} else old(View())[address := old(account.View())]
      ensures rootHash == if account == null then old(rootHash) else CountRoot(|accounts|)
    {
      hide CountRoot;
      if account == null {
        accounts := accounts - {address};
        return;
      }
      var copy := account.Copy();
      accounts := accounts[address := copy];
      rootHash := CountRoot(|accounts|);
    }
  }

  /** A copy of the stored account, or a new account with the given balance. */
  method LoadAccount(db: MemoryStateDB, address: Address, newBalance: uint64) returns (account: Account)
    ensures fresh(account)
    ensures account.View() == if address in db.View() then db.View()[address] else NewFunds(newBalance as nat)
  {
    var stored := db.GetAccount(address);
    if stored.Some? {
      return stored.value;
    }
    account := new Account(0, newBalance, [], []);
  }

  method ExecuteValueTransfer(sender: Account, receiver: Account, tx: Transaction) returns (ok: bool)
    requires sender != receiver && tx.amount < UINT64 && tx.fee < UINT64
    modifies sender, receiver
    ensures ok <==> old(sender.View()).balance >= tx.amount + tx.fee
    ensures ok ==> sender.View() == old(sender.View()).(balance := old(sender.View()).balance - (tx.amount + tx.fee))
    ensures ok ==> receiver.View() == old(receiver.View()).(balance := (old(receiver.View()).balance + tx.amount) % UINT64)
  {
    var totalCost := tx.amount + tx.fee;
    if (sender.balance as nat) < totalCost {
      return false;
    }
    var _ := sender.SubBalance(totalCost as uint64);
    receiver.AddBalance(tx.amount as uint64);
    return true;
  }

  /** Empties the sender's copy and writes its contents to the destination, where they will not stay. */
  method ExecuteMigration(db: MemoryStateDB, sender: Account, to: Address)
    requires sender !in db.accounts.Values
    modifies db, sender
    ensures sender.View() == Funds(old(sender.View()).nonce, 0, [], [])
    ensures db.View() == old(db.View())[to := old(sender.View()).(nonce := 0)]
  {
    hide CountRoot, MemoryStateDB.View;
    var newAccount := new Account(0, sender.balance, sender.codeHash, sender.storageRoot);
    sender.balance, sender.codeHash, sender.storageRoot := 0, [], [];
    db.SetAccount(to, newAccount);
  }

  method ExecuteStake(sender: Account, amount: uint64) returns (ok: bool)
    modifies sender
    ensures ok <==> old(sender.balance) >= amount
    ensures sender.View() == if ok then old(sender.View()).(balance := old(sender.View()).balance - amount as nat) else old(sender.View())
  {
    ok := sender.SubBalance(amount);
  }

  /** Credits a copy of its own, which the executor then overwrites with the older one. */
  method ExecuteUnstake(db: MemoryStateDB, to: Address, amount: uint64)
    modifies db
    ensures db.View() == old(db.View())[to :=
              ReceiverOf(old(db.View()), to).(balance := (ReceiverOf(old(db.View()), to).balance + amount as nat) % UINT64)]
  {
    hide CountRoot, MemoryStateDB.View;
    var toAccount := LoadAccount(db, to, 0);
    toAccount.AddBalance(amount);
    db.SetAccount(to, toAccount);
  }

  method ApplyBlockReward(db: MemoryStateDB, coinbase: Address, reward: uint64)
    modifies db
    ensures db.View() == Rewarded(old(db.View()), coinbase, reward as nat)
  {
    hide CountRoot, MemoryStateDB.View;
    var account := LoadAccount(db, coinbase, 0);
    account.AddBalance(reward);
    db.SetAccount(coinbase, account);
  }

  method ExecuteByType(db: MemoryStateDB, sender: Account, receiver: Account, tx: Transaction) returns (outcome: Outcome)
    requires tx.amount < UINT64 && tx.fee < UINT64
    requires sender != receiver && sender !in db.accounts.Values && receiver !in db.accounts.Values
    modifies db, sender, receiver
    ensures outcome ==
      if tx.kind.Unknown? then UnsupportedType
      else if old(sender.View()).balance < Cost(tx) then InsufficientBalance
      else if tx.kind.Governance? && tx.dataSize == 0 then DataRequired
      else Success
    ensures !outcome.Success? ==> db.View() == old(db.View())
    ensures outcome.Success? ==>
              && sender.View() == Debited(old(sender.View()), tx) && receiver.View() == Credited(old(receiver.View()), tx)
              && db.View() - {tx.to} == old(db.View()) - {tx.to}
  {
    match tx.kind {
      case Online | Offline =>
        var ok := ExecuteValueTransfer(sender, receiver, tx);
        return if ok then Success else InsufficientBalance;
      case Migration =>
        ExecuteMigration(db, sender, tx.to);
      case Stake =>
        var ok := ExecuteStake(sender, tx.amount as uint64);
        return if ok then Success else InsufficientBalance;
      case Unstake =>
        ExecuteUnstake(db, tx.to, tx.amount as uint64);
      case Governance =>
        if tx.dataSize == 0 {
          return DataRequired;
        }
      case Vote =>
      case Unknown =>
        return UnsupportedType;
    }
    return Success;
  }

  method ExecuteTransaction(db: MemoryStateDB, tx: Transaction) returns (outcome: Outcome)
    requires tx.amount < UINT64 && tx.fee < UINT64
    modifies db
    ensures outcome == Verdict(old(db.View()), tx)
    ensures db.View() == Execute(old(db.View()), tx)
    ensures outcome.Success? ==> tx.nonce == if tx.from in old(db.View()) then old(db.View())[tx.from].nonce else 0
  {
    hide CountRoot, MemoryStateDB.View;
    var fromAccount := LoadAccount(db, To16(tx.from), NEW_SENDER_BALANCE as uint64);
    if tx.nonce != fromAccount.nonce as nat {
      return InvalidNonce;
    }
    if !ValidTransaction(tx) {
      return InvalidTransaction;
    }
    hide Debited, Credited, Cost, ValidTransaction;
    var toAccount := LoadAccount(db, tx.to, 0);
    ghost var before := db.View();
    outcome := ExecuteByType(db, fromAccount, toAccount, tx);
    if !outcome.Success? {
      return;
    }
    ghost var during := db.View();
    db.SetAccount(tx.from, fromAccount);
    db.SetAccount(tx.to, toAccount);
    LastWriteWins(before, during, tx.from, fromAccount.View(), tx.to, toAccount.View());
  }

  lemma LastWriteWins(before: Accounts, during: Accounts, from: Address, sender: Funds, to: Address, receiver: Funds)
    requires during - {to} == before - {to}
    ensures during[from := sender][to := receiver] == before[from := sender][to := receiver]
  {
    forall a | a != to ensures (a in during <==> a in before) && (a in during ==> during[a] == before[a]) {
      assert a in during - {to} <==> a in before - {to};
    }
  }
}
