/** payouts/payer.go: one payout from the due balances to the records. */
module Paying {
  import opened Outcomes
  import opened Bytes
  import opened Ledger
  import opened Rewards
  import opened Payer
  import opened Settlement

  // ---- What is due -----------------------------------------------------------------------------

  /** The balance reaches its threshold and its chain is one the pool pays out. */
  ghost predicate DueNow(rows: map<Account, real>, thresholds: map<(string, string), real>, config: Config, a: Account) {
    && a.chain in config.chainOrder && a.chain in config.payouts
    && IsDue(rows, thresholds, config.poolName, a.chain, config.payouts[a.chain].minimumPayment, a)
  }

  /** Due balances only, each with its amount. */
  ghost predicate OnlyDue(batch: seq<Balance>, rows: map<Account, real>, thresholds: map<(string, string), real>, config: Config) {
    forall b | b in batch :: DueNow(rows, thresholds, config, b.account) && b.amount == rows[b.account]
  }

  /** Every due balance. */
  ghost predicate HoldsAllDue(batch: seq<Balance>, rows: map<Account, real>, thresholds: map<(string, string), real>, config: Config) {
    forall a | DueNow(rows, thresholds, config, a) :: Balance(a, rows[a]) in batch
  }

  /** Of the due balances none has anything on it. */
  ghost predicate NothingDue(rows: map<Account, real>, thresholds: map<(string, string), real>, config: Config) {
    forall a | DueNow(rows, thresholds, config, a) :: rows[a] == 0.0
  }

  /** Every due balance has a chain with a wallet. */
  ghost predicate HaveWallets(config: Config, chains: set<string>, rows: map<Account, real>, thresholds: map<(string, string), real>) {
    forall a | DueNow(rows, thresholds, config, a) :: a.chain in chains
  }

  /** Every configured chain has a payout configuration, and every due balance an address and a
      wallet. */
  ghost predicate CanPay(config: Config, chains: set<string>, rows: map<Account, real>, thresholds: map<(string, string), real>) {
    && (forall chain | chain in config.chainOrder :: chain in config.payouts)
    && (forall a | DueNow(rows, thresholds, config, a) :: PayAddress(a, config.chainOrder).Ok?)
    && HaveWallets(config, chains, rows, thresholds)
  }

  /** A due balance has an address with too few parts. */
  ghost predicate AddressPanics(rows: map<Account, real>, thresholds: map<(string, string), real>, config: Config) {
    exists a :: DueNow(rows, thresholds, config, a) && PayAddress(a, config.chainOrder).Panic?
  }

  lemma CanPayBatch(config: Config, chains: set<string>, rows: map<Account, real>, thresholds: map<(string, string), real>, batch: seq<Balance>)
    requires OnlyDue(batch, rows, thresholds, config) && HoldsAllDue(batch, rows, thresholds, config)
    requires forall chain | chain in config.chainOrder :: chain in config.payouts
    ensures CanPay(config, chains, rows, thresholds)
      <==> Resolved(batch, config.chainOrder) && forall b | b in batch :: b.account.chain in chains
    ensures HaveWallets(config, chains, rows, thresholds) <==> forall b | b in batch :: b.account.chain in chains
  {
    forall a | DueNow(rows, thresholds, config, a) ensures exists b :: b in batch && b.account == a {
      assert Balance(a, rows[a]).account == a;
    }
  }

  ghost predicate DistinctChains(order: seq<string>) {
    forall i, j :: 0 <= i < j < |order| ==> order[i] != order[j]
  }

  ghost predicate DueOn(b: Balance, balances: BalanceRepository, config: Config, chain: string)
    reads balances
  {
    && chain in config.payouts && b.account in balances.balances && b.amount == balances.balances[b.account]
    && balances.Due(config.poolName, chain, config.payouts[chain].minimumPayment, b.account)
  }

  /** Collects the due balances and no others, chain by chain in the configured order. */
  method CollectBalances(balances: BalanceRepository, config: Config) returns (r: Outcome<seq<Balance>>)
    modifies balances.calls
    ensures old(balances.calls.failed) <= balances.calls.failed
    ensures r.Ok? <==>
      balances.calls.failed == old(balances.calls.failed) && forall chain | chain in config.chainOrder :: chain in config.payouts
    ensures r.Ok? ==>
      && OnlyDue(r.value, balances.balances, balances.thresholds, config)
      && HoldsAllDue(r.value, balances.balances, balances.thresholds, config)
      && (DistinctChains(config.chainOrder) ==> DistinctAccounts(r.value))
    ensures !r.Panic?
  {
    var batch: seq<Balance> := [];
    for i := 0 to |config.chainOrder|
      invariant balances.calls.failed == old(balances.calls.failed)
      invariant forall b | b in batch :: b.account.chain in config.chainOrder[..i] && DueOn(b, balances, config, b.account.chain)
      invariant DistinctChains(config.chainOrder) ==> DistinctAccounts(batch)
      invariant forall chain | chain in config.chainOrder[..i] :: chain in config.payouts
      invariant forall chain, a | chain in config.chainOrder[..i]
                  && balances.Due(config.poolName, chain, config.payouts[chain].minimumPayment, a)
                  :: Balance(a, balances.balances[a]) in batch
    {
      var chain := config.chainOrder[i];
      assert config.chainOrder[..i + 1] == config.chainOrder[..i] + [chain];
      if chain !in config.payouts {
        return Err;
      }
      var b :- balances.GetPoolBalancesOverThreshold(config.poolName, chain, config.payouts[chain].minimumPayment);
      batch := batch + b;
    }
    assert config.chainOrder[..|config.chainOrder|] == config.chainOrder;
    return Ok(batch);
  }

  // ---- Recording ---------------------------------------------------------------------------------

  /** One turn of the recording loop: the payment, then the reset. */
  method RecordOne(balances: BalanceRepository, payments: PaymentRepository, balance: Balance, order: seq<string>,
                   confirmations: map<string, string>)
    returns (ok: bool, ghost paid: seq<Payment>, ghost entry: seq<Change>)
    requires balances.Reconciled() && PayAddress(balance.account, order).Ok? && balance.account.chain in confirmations
    requires balances.calls == payments.calls
    modifies balances`balances, balances`changes, balances`unposted, payments, payments.calls
    ensures balances.Reconciled() && payments.calls.failed == old(payments.calls.failed) + if ok then 0 else 1
    ensures payments.payments == old(payments.payments) + paid && balances.changes == old(balances.changes) + entry
    ensures paid == [] || paid == [PaymentOf(balance, order, confirmations)]
    ensures entry == [] || entry == [ResetOf(balance)]
    ensures paid == [] ==> entry == []
    ensures Joined(old(balances.unposted), balances.unposted, |old(balances.changes)|, if ok then 0 else 1)
    ensures ok ==> paid != [] && entry != []
                   && balances.balances == old(balances.balances)[balance.account := old(balances.Amount(balance.account)) - balance.amount]
    ensures !ok ==> balances.balances == old(balances.balances)
  {
    paid, entry := [], [];
    var confirmation := confirmations[balance.account.chain];
    var address := FindBalanceAddress(balance.account, order);
    ok := payments.Insert(Payment(balance.account.pool, balance.account.chain, address.value, balance.amount, confirmation));
    if !ok {
      return;
    }
    paid := [PaymentOf(balance, order, confirmations)];
    ok := balances.AddAmount(balance.account, Paid, balance.amount * -1.0);
    if balances.changes != old(balances.changes) {
      entry := [ResetOf(balance)];
    }
  }

  function Accounts(batch: seq<Balance>): set<Account> {
    set b | b in batch :: b.account
  }

  lemma UpdateWithin<K, V>(m: map<K, V>, k: K, v: V, s: set<K>)
    requires k in s
    ensures m[k := v] - s == m - s
  {
  }

  /** The third loop: records and resets one balance after another. That every chain has its
      confirmation and every address resolves is known from the sending loops, so the loop's
      two error returns for them cannot be taken. */
  method RecordPayments(balances: BalanceRepository, payments: PaymentRepository, batch: seq<Balance>, order: seq<string>,
                        confirmations: map<string, string>)
    returns (ok: bool, ghost reset: nat, ghost newPayments: seq<Payment>, ghost entries: seq<Change>)
    requires balances.Reconciled() && Resolved(batch, order) && balances.calls == payments.calls
    requires forall b | b in batch :: b.account.chain in confirmations
    modifies balances`balances, balances`changes, balances`unposted, payments, payments.calls
    ensures balances.balances - Accounts(batch) == old(balances.balances) - Accounts(batch)
    ensures old(balances.balances.Keys) <= balances.balances.Keys
    ensures balances.Reconciled() && payments.calls.failed == old(payments.calls.failed) + if ok then 0 else 1
    ensures payments.payments == old(payments.payments) + newPayments && balances.changes == old(balances.changes) + entries
    ensures Recorded(batch, reset, order, confirmations, newPayments, entries)
    ensures Joined(old(balances.unposted), balances.unposted, |old(balances.changes)|, if ok then 0 else 1)
    ensures ok ==> reset == |batch| && newPayments == PaymentsOf(batch, order, confirmations) && entries == ResetsOf(batch)
  {
    ok, reset, newPayments, entries := true, 0, [], [];
    assert batch[..0] == [];
    for i := 0 to |batch|
      invariant ok && reset == i && balances.Reconciled() && balances.unposted == old(balances.unposted)
      invariant payments.calls.failed == old(payments.calls.failed)
      invariant balances.balances - Accounts(batch) == old(balances.balances) - Accounts(batch)
      invariant old(balances.balances.Keys) <= balances.balances.Keys
      invariant newPayments == PaymentsOf(batch[..i], order, confirmations) && entries == ResetsOf(batch[..i])
      invariant payments.payments == old(payments.payments) + newPayments && balances.changes == old(balances.changes) + entries
    {
      ghost var paid, entry;
      ghost var was := balances.balances;
      RecordNext(batch, i, order, confirmations);
      UpdateWithin(was, batch[i].account, balances.Amount(batch[i].account) - batch[i].amount, Accounts(batch));
      ok, paid, entry := RecordOne(balances, payments, batch[i], order, confirmations);
      Group2(old(payments.payments), newPayments, paid);
      Group2(old(balances.changes), entries, entry);
      newPayments, entries := newPayments + paid, entries + entry;
      if !ok {
        return;
      }
      reset := i + 1;
    }
    assert batch[..|batch|] == batch;
  }

  /** What a batch takes off one of its balances. */
  lemma ResetTakes(batch: seq<Balance>, before: seq<Change>, missed: set<nat>, b: Balance)
    requires DistinctAccounts(batch) && b in batch && Below(missed, |before|)
    ensures Logged(before + ResetsOf(batch), missed, b.account) == Logged(before, missed, b.account) - b.amount
  {
    ResetsTakeAmounts(batch, b.account);
    LoggedAppend(before, ResetsOf(batch), missed, b.account);
  }

  lemma OutsideUnchanged<K, V>(m: map<K, V>, n: map<K, V>, k: K, s: set<K>)
    requires m - s == n - s && k !in s
    ensures k in m <==> k in n
    ensures k in m ==> m[k] == n[k]
  {
    assert k in m - s <==> k in m;
    assert k in n - s <==> k in n;
  }

  /** Taking a batch of all due balances to zero, and touching nothing else, leaves nothing due. */
  lemma PaidUp(batch: seq<Balance>, before: map<Account, real>, after: map<Account, real>, thresholds: map<(string, string), real>, config: Config)
    requires HoldsAllDue(batch, before, thresholds, config)
    requires after - Accounts(batch) == before - Accounts(batch)
    requires forall b | b in batch :: b.account in after && after[b.account] == 0.0
    ensures NothingDue(after, thresholds, config)
  {
    forall a | DueNow(after, thresholds, config, a) ensures after[a] == 0.0 {
      var was := DueNow(before, thresholds, config, a);
      assert was ==> a in Accounts(batch);
      if a !in Accounts(batch) {
        OutsideUnchanged(after, before, a, Accounts(batch));
      }
    }
  }

  /** The recording loop over a batch of all due balances. When it gets through, all of them are
      zero and nothing is due. */
  method RecordBatch(balances: BalanceRepository, payments: PaymentRepository, batch: seq<Balance>, config: Config,
                     confirmations: map<string, string>, ghost sends: seq<Transfer>)
    returns (ok: bool, ghost p: Payout)
    requires balances.Reconciled() && Resolved(batch, config.chainOrder) && balances.calls == payments.calls
    requires forall b | b in batch :: b.account.chain in confirmations
    requires OnlyDue(batch, balances.balances, balances.thresholds, config) && HoldsAllDue(batch, balances.balances, balances.thresholds, config)
    requires SendsOf(sends, Grouped(batch, config.chainOrder))
    requires forall chain | chain in Grouped(batch, config.chainOrder) :: Transfer(chain, Grouped(batch, config.chainOrder)[chain]) in sends
    modifies balances`balances, balances`changes, balances`unposted, payments, payments.calls
    ensures balances.Reconciled() && payments.calls.failed == old(payments.calls.failed) + if ok then 0 else 1
    ensures payments.payments == old(payments.payments) + p.payments && balances.changes == old(balances.changes) + p.entries
    ensures p.batch == batch && p.sends == sends && p.confirmations == confirmations && PayoutMeans(p, config.chainOrder, ok)
    ensures Joined(old(balances.unposted), balances.unposted, |old(balances.changes)|, if ok then 0 else 1)
    ensures ok && DistinctAccounts(batch) ==> NothingDue(balances.balances, balances.thresholds, config)
  {
    ghost var reset, newPayments, entries;
    ghost var before, missed := balances.changes, balances.unposted;
    ok, reset, newPayments, entries := RecordPayments(balances, payments, batch, config.chainOrder, confirmations);
    p := Payout(batch, sends, reset, confirmations, newPayments, entries);
    if ok && DistinctAccounts(batch) {
      forall b | b in batch ensures b.account in balances.balances && balances.balances[b.account] == 0.0 {
        ResetTakes(batch, before, missed, b);
        assert Held(balances.balances, b.account) == Logged(balances.changes, missed, b.account);
      }
      PaidUp(batch, old(balances.balances), balances.balances, balances.thresholds, config);
    }
  }

  // ---- The payout ----------------------------------------------------------------------------------

  /** What a payout does when it stops before it records anything: nothing but its sends. */
  lemma StoppedEarly(batch: seq<Balance>, sends: seq<Transfer>, order: seq<string>)
    requires !Resolved(batch, order) ==> sends == []
    requires Resolved(batch, order) ==> SendsOf(sends, Grouped(batch, order))
    ensures PayoutMeans(Payout(batch, sends, 0, map[], [], []), order, false)
  {
    NothingRecorded(batch, order, map[]);
  }

  /** One payout. It pays the due balances and no others, and succeeds exactly when no call fails
      and every due balance can be paid; then each was sent, recorded and reset, and nothing is
      left due. When it ends early, what was reset is a prefix of the batch, with at most one more
      payment on record. When it ends early without a failed call, nothing is recorded or reset,
      and what was sent is what some walk over the chains sends before it meets one without a
      wallet. */
  method PayoutBalances(balances: BalanceRepository, payments: PaymentRepository, wallets: Wallets, config: Config)
    returns (r: Outcome<()>, ghost p: Payout, ghost walk: seq<string>)
    requires balances.Reconciled() && balances.calls == payments.calls == wallets.calls
    modifies balances`balances, balances`changes, balances`unposted, payments, wallets, wallets.calls
    ensures balances.Reconciled() && old(wallets.calls.failed) <= wallets.calls.failed
    ensures r.Ok? <==>
      && wallets.calls.failed == old(wallets.calls.failed)
      && CanPay(config, wallets.chains, old(balances.balances), balances.thresholds)
    ensures OnlyDue(p.batch, old(balances.balances), balances.thresholds, config)
    ensures PayoutMeans(p, config.chainOrder, r.Ok?) && PaysOwners(p, config.chainOrder)
    ensures r.Panic? ==>
      balances.balances == old(balances.balances) && AddressPanics(balances.balances, balances.thresholds, config)
    ensures wallets.transfers == old(wallets.transfers) + p.sends
    ensures p.payments != [] ==>
      && wallets.receipts == old(wallets.receipts) + ReceiptsOf(p.sends, p.confirmations)
      && forall b | b in p.batch :: b.account.chain in p.confirmations
    ensures payments.payments == old(payments.payments) + p.payments
    ensures balances.changes == old(balances.changes) + p.entries
    ensures Joined(old(balances.unposted), balances.unposted, |old(balances.changes)|, wallets.calls.failed - old(wallets.calls.failed))
    ensures r.Ok? ==>
      && HoldsAllDue(p.batch, old(balances.balances), balances.thresholds, config)
      && (DistinctChains(config.chainOrder) ==> NothingDue(balances.balances, balances.thresholds, config))
    ensures !r.Ok? && wallets.calls.failed == old(wallets.calls.failed) ==>
      && p.payments == [] && p.entries == [] && balances.balances == old(balances.balances)
      && (p.sends != [] ==> HoldsAllDue(p.batch, balances.balances, balances.thresholds, config) && Resolved(p.batch, config.chainOrder)
                            && IsWalk(walk, Grouped(p.batch, config.chainOrder).Keys)
                            && p.sends == SendsAlong(walk, Grouped(p.batch, config.chainOrder), wallets.chains)
                            && !HaveWallets(config, wallets.chains, balances.balances, balances.thresholds))
  {
    hide PaysOwners;
    p, walk := Payout([], [], 0, map[], [], []), [];
    StoppedEarly([], [], config.chainOrder);
    PayoutPaysOwners(p, config.chainOrder, false);
    var collected := CollectBalances(balances, config);
    if !collected.Ok? {
      return Err, p, walk;
    }
    var batch := collected.value;
    CanPayBatch(config, wallets.chains, balances.balances, balances.thresholds, batch);
    var confirmations;
    ghost var sends;
    confirmations, sends, walk := BitcoinTryManyPayments(wallets, batch, config.chainOrder);
    if !confirmations.Ok? {
      p := Payout(batch, sends, 0, map[], [], []);
      StoppedEarly(batch, sends, config.chainOrder);
      PayoutPaysOwners(p, config.chainOrder, false);
      return confirmations.PropagateFailure(), p, walk;
    }
    var ok;
    ok, p := RecordBatch(balances, payments, batch, config, confirmations.value, sends);
    PayoutPaysOwners(p, config.chainOrder, ok);
    return if ok then Ok(()) else Err, p, walk;
  }
}
