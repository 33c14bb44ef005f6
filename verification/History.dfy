/** The history of a payout loop: blocks rewarded and payouts made, one after the other, and what
    the ledger, the payments and the wallets hold after it. */
module History {
  import opened Outcomes
  import opened Ledger
  import opened Rewards
  import opened Payer
  import opened Settlement
  import opened Paying
  import opened Books

  /** A payout is `finished` when it came to its end, and `calm` when no call failed in it. */
  datatype Event = BlockRewarded(report: Report) | PayoutMade(payout: Payout, finished: bool, calm: bool)

  function LogOf(history: seq<Event>): seq<Change> {
    if history == [] then []
    else
      var e := history[|history| - 1];
      LogOf(history[..|history| - 1]) + if e.BlockRewarded? then e.report.entries else e.payout.entries
  }

  function ReportsIn(history: seq<Event>): seq<Report> {
    if history == [] then []
    else
      var e := history[|history| - 1];
      ReportsIn(history[..|history| - 1]) + if e.BlockRewarded? then [e.report] else []
  }

  function PayoutsIn(history: seq<Event>): seq<Payout> {
    if history == [] then []
    else
      var e := history[|history| - 1];
      PayoutsIn(history[..|history| - 1]) + if e.PayoutMade? then [e.payout] else []
  }

  /** The events in which a call failed. */
  function Disturbed(history: seq<Event>): nat {
    if history == [] then 0
    else
      var e := history[|history| - 1];
      Disturbed(history[..|history| - 1]) + Unit(if e.BlockRewarded? then !e.report.settled else !e.calm)
  }

  function PaymentsIn(payouts: seq<Payout>): seq<Payment> {
    if payouts == [] then [] else PaymentsIn(payouts[..|payouts| - 1]) + payouts[|payouts| - 1].payments
  }

  function SendsIn(payouts: seq<Payout>): seq<Transfer> {
    if payouts == [] then [] else SendsIn(payouts[..|payouts| - 1]) + payouts[|payouts| - 1].sends
  }

  /** The balances whose payment was recorded but whose reset was not logged. */
  function UnresetIn(payouts: seq<Payout>): seq<Balance> {
    if payouts == [] then [] else UnresetIn(payouts[..|payouts| - 1]) + Unreset(payouts[|payouts| - 1])
  }

  /** The balances that were sent without a payment record. */
  function UnrecordedIn(payouts: seq<Payout>): seq<Balance> {
    if payouts == [] then [] else UnrecordedIn(payouts[..|payouts| - 1]) + Unrecorded(payouts[|payouts| - 1])
  }

  /** The recorded balances whose claim was replaced by another on the same address. */
  ghost function ReplacedIn(payouts: seq<Payout>, order: seq<string>): seq<Balance> {
    if payouts == [] then [] else ReplacedIn(payouts[..|payouts| - 1], order) + Replaced(payouts[|payouts| - 1], order)
  }

  lemma RewardAdded(history: seq<Event>, p: Report)
    ensures LogOf(history + [BlockRewarded(p)]) == LogOf(history) + p.entries
    ensures ReportsIn(history + [BlockRewarded(p)]) == ReportsIn(history) + [p]
    ensures PayoutsIn(history + [BlockRewarded(p)]) == PayoutsIn(history)
    ensures Disturbed(history + [BlockRewarded(p)]) == Disturbed(history) + Unit(!p.settled)
  {
    assert (history + [BlockRewarded(p)])[..|history|] == history;
    assert PayoutsIn(history) + [] == PayoutsIn(history);
  }

  lemma PayoutAdded(history: seq<Event>, p: Payout, finished: bool, calm: bool)
    ensures LogOf(history + [PayoutMade(p, finished, calm)]) == LogOf(history) + p.entries
    ensures ReportsIn(history + [PayoutMade(p, finished, calm)]) == ReportsIn(history)
    ensures PayoutsIn(history + [PayoutMade(p, finished, calm)]) == PayoutsIn(history) + [p]
    ensures Disturbed(history + [PayoutMade(p, finished, calm)]) == Disturbed(history) + Unit(!calm)
    ensures PaymentsIn(PayoutsIn(history) + [p]) == PaymentsIn(PayoutsIn(history)) + p.payments
    ensures SendsIn(PayoutsIn(history) + [p]) == SendsIn(PayoutsIn(history)) + p.sends
  {
    assert (history + [PayoutMade(p, finished, calm)])[..|history|] == history;
    assert ReportsIn(history) + [] == ReportsIn(history);
    var payouts := PayoutsIn(history);
    assert (payouts + [p])[..|payouts|] == payouts;
  }

  // ---- Which histories there can be ----------------------------------------------------------------

  /** The balance has the amount the log gives it, and is due with that. */
  ghost predicate DueByLog(b: Balance, log: seq<Change>, missed: set<nat>, thresholds: map<(string, string), real>, config: Config) {
    b.amount == Logged(log, missed, b.account) && DueNow(map[b.account := b.amount], thresholds, config, b.account)
  }

  /** Every account that is due by the log, with its amount. */
  ghost predicate HoldsDueByLog(batch: seq<Balance>, log: seq<Change>, missed: set<nat>, thresholds: map<(string, string), real>, config: Config) {
    forall a: Account :: Logged(log, missed, a) != 0.0 && DueByLog(Balance(a, Logged(log, missed, a)), log, missed, thresholds, config)
                         ==> Balance(a, Logged(log, missed, a)) in batch
  }

  /** The event can come after a history with this log. A payout pays only balances that are due by
      the log, and when it finishes, all of them. Unless a call failed in it, it records nothing or everything, and sends nothing it
      does not record, if all chains have wallets. */
  ghost predicate CanFollow(e: Event, log: seq<Change>, missed: set<nat>, thresholds: map<(string, string), real>, config: Config, chains: set<string>) {
    match e
    case BlockRewarded(p) => Conserved(p)
    case PayoutMade(p, finished, calm) =>
      && PayoutMeans(p, config.chainOrder, finished)
      && (forall b | b in p.batch :: DueByLog(b, log, missed, thresholds, config))
      && (finished ==> HoldsDueByLog(p.batch, log, missed, thresholds, config))
      && (calm && !finished ==> p.payments == [] && p.entries == [])
      && (calm && Unrecorded(p) != [] ==> !AllWallets(config, chains))
  }

  /** Every chain of the order has a wallet. */
  ghost predicate AllWallets(config: Config, chains: set<string>) {
    forall chain | chain in config.chainOrder :: chain in chains
  }

  ghost predicate IsHistory(history: seq<Event>, missed: set<nat>, thresholds: map<(string, string), real>, config: Config, chains: set<string>) {
    history == []
    || (var front := history[..|history| - 1];
        CanFollow(history[|history| - 1], LogOf(front), missed, thresholds, config, chains)
        && IsHistory(front, missed, thresholds, config, chains))
  }

  /** The places past the log say nothing about the history. */
  lemma {:induction false} HistoryAgrees(history: seq<Event>, missed: set<nat>, others: set<nat>, thresholds: map<(string, string), real>,
                                         config: Config, chains: set<string>)
    requires IsHistory(history, missed, thresholds, config, chains)
    requires forall i | 0 <= i < |LogOf(history)| :: i in missed <==> i in others
    ensures IsHistory(history, others, thresholds, config, chains)
  {
    if history != [] {
      var front, e := history[..|history| - 1], history[|history| - 1];
      EventAgrees(e, LogOf(front), missed, others, thresholds, config, chains);
      HistoryAgrees(front, missed, others, thresholds, config, chains);
    }
  }

  lemma EventAgrees(e: Event, log: seq<Change>, missed: set<nat>, others: set<nat>, thresholds: map<(string, string), real>,
                    config: Config, chains: set<string>)
    requires CanFollow(e, log, missed, thresholds, config, chains)
    requires forall i | 0 <= i < |log| :: i in missed <==> i in others
    ensures CanFollow(e, log, others, thresholds, config, chains)
  {
    if e.PayoutMade? {
      forall b | b in e.payout.batch ensures DueByLog(b, log, others, thresholds, config) {
        LoggedAgrees(log, missed, others, b.account);
      }
      forall a: Account ensures Logged(log, missed, a) == Logged(log, others, a) {
        LoggedAgrees(log, missed, others, a);
      }
    }
  }

  /** A history goes on with an event, in which some more entries may have stayed unposted. */
  lemma HistoryGrows(history: seq<Event>, e: Event, missed: set<nat>, others: set<nat>, failures: int,
                     thresholds: map<(string, string), real>, config: Config, chains: set<string>)
    requires IsHistory(history, missed, thresholds, config, chains)
    requires CanFollow(e, LogOf(history), missed, thresholds, config, chains)
    requires Joined(missed, others, |LogOf(history)|, failures)
    ensures IsHistory(history + [e], others, thresholds, config, chains)
  {
    HistoryAgrees(history, missed, others, thresholds, config, chains);
    EventAgrees(e, LogOf(history), missed, others, thresholds, config, chains);
    assert (history + [e])[..|history|] == history;
  }

  /** Balances collected from rows the log adds up to are due by the log. */
  lemma CollectedAreDue(batch: seq<Balance>, rows: map<Account, real>, log: seq<Change>, missed: set<nat>,
                        thresholds: map<(string, string), real>, config: Config)
    requires OnlyDue(batch, rows, thresholds, config) && AddsUp(rows, log, missed)
    ensures forall b | b in batch :: DueByLog(b, log, missed, thresholds, config)
    ensures HoldsAllDue(batch, rows, thresholds, config) ==> HoldsDueByLog(batch, log, missed, thresholds, config)
  {
    forall b | b in batch ensures DueByLog(b, log, missed, thresholds, config) {
      assert Held(rows, b.account) == Logged(log, missed, b.account);
    }
    if HoldsAllDue(batch, rows, thresholds, config) {
      forall a: Account | Logged(log, missed, a) != 0.0 && DueByLog(Balance(a, Logged(log, missed, a)), log, missed, thresholds, config)
        ensures Balance(a, Logged(log, missed, a)) in batch
      {
        assert Held(rows, a) == Logged(log, missed, a);
        assert DueNow(rows, thresholds, config, a);
      }
    }
  }

  // ---- What a history adds up to -------------------------------------------------------------------

  /** What one payout does to the books. */
  lemma PayoutNoted(payouts: seq<Payout>, log: seq<Change>, p: Payout, order: seq<string>, finished: bool, calm: bool)
    requires PayoutMeans(p, order, finished) && (calm && !finished ==> p.payments == [])
    requires PaidOut(PaymentsIn(payouts)) == Reset(log) + TotalAmount(UnresetIn(payouts))
    ensures Credited(log + p.entries) == Credited(log)
    ensures PaidOut(PaymentsIn(payouts + [p])) == Reset(log + p.entries) + TotalAmount(UnresetIn(payouts + [p]))
    ensures |UnresetIn(payouts + [p])| <= |UnresetIn(payouts)| + Unit(!calm)
  {
    assert (payouts + [p])[..|payouts|] == payouts;
    PayoutTotals(p, order, finished);
    CreditedAppend(log, p.entries);
    ResetAppend(log, p.entries);
    PaidOutAppend(PaymentsIn(payouts), p.payments);
    TotalAmountAppend(UnresetIn(payouts), Unreset(p));
  }

  /** The log credits what the reports say, and the payments are the resets but for payouts that a
      failed call stopped in between. */
  lemma {:induction false} HistoryBalances(history: seq<Event>, missed: set<nat>, thresholds: map<(string, string), real>,
                                           config: Config, chains: set<string>)
    requires IsHistory(history, missed, thresholds, config, chains)
    ensures Credited(LogOf(history)) == Given(ReportsIn(history))
    ensures PaidOut(PaymentsIn(PayoutsIn(history))) == Reset(LogOf(history)) + TotalAmount(UnresetIn(PayoutsIn(history)))
    ensures |UnresetIn(PayoutsIn(history))| <= Disturbed(history)
  {
    if history != [] {
      var front, e := history[..|history| - 1], history[|history| - 1];
      assert history == front + [e];
      HistoryBalances(front, missed, thresholds, config, chains);
      if e.BlockRewarded? {
        RewardAdded(front, e.report);
        CreditedAppend(LogOf(front), e.report.entries);
        ResetAppend(LogOf(front), e.report.entries);
        ReportsLast(ReportsIn(front), e.report, 0);
      } else {
        PayoutAdded(front, e.payout, e.finished, e.calm);
        PayoutNoted(PayoutsIn(front), LogOf(front), e.payout, config.chainOrder, e.finished, e.calm);
      }
    }
  }

  /** Address by address: what left the wallets, and the claims replaced in it, are the payment
      records and the claims sent without one. */
  lemma {:induction false} SendsBalance(history: seq<Event>, missed: set<nat>, thresholds: map<(string, string), real>, config: Config,
                                        chains: set<string>, chain: string, address: string)
    requires IsHistory(history, missed, thresholds, config, chains)
    ensures SentBy(SendsIn(PayoutsIn(history)), chain, address)
            + ClaimTotal(ReplacedIn(PayoutsIn(history), config.chainOrder), config.chainOrder, chain, address)
            == PaidTo(PaymentsIn(PayoutsIn(history)), chain, address)
               + ClaimTotal(UnrecordedIn(PayoutsIn(history)), config.chainOrder, chain, address)
  {
    if history != [] {
      var front, e := history[..|history| - 1], history[|history| - 1];
      assert history == front + [e];
      SendsBalance(front, missed, thresholds, config, chains, chain, address);
      if e.BlockRewarded? {
        RewardAdded(front, e.report);
      } else {
        PayoutAdded(front, e.payout, e.finished, e.calm);
        PayoutDelivers(PayoutsIn(front), e.payout, config.chainOrder, e.finished, chain, address);
      }
    }
  }

  lemma PayoutDelivers(payouts: seq<Payout>, p: Payout, order: seq<string>, finished: bool, chain: string, address: string)
    requires PayoutMeans(p, order, finished)
    requires SentBy(SendsIn(payouts), chain, address) + ClaimTotal(ReplacedIn(payouts, order), order, chain, address)
             == PaidTo(PaymentsIn(payouts), chain, address) + ClaimTotal(UnrecordedIn(payouts), order, chain, address)
    ensures SentBy(SendsIn(payouts + [p]), chain, address) + ClaimTotal(ReplacedIn(payouts + [p], order), order, chain, address)
            == PaidTo(PaymentsIn(payouts + [p]), chain, address) + ClaimTotal(UnrecordedIn(payouts + [p]), order, chain, address)
  {
    assert (payouts + [p])[..|payouts|] == payouts;
    PayoutBalance(p, order, finished, chain, address);
    SentByAppend(SendsIn(payouts), p.sends, chain, address);
    PaidToAppend(PaymentsIn(payouts), p.payments, chain, address);
    ClaimTotalAppend(ReplacedIn(payouts, order), Replaced(p, order), order, chain, address);
    ClaimTotalAppend(UnrecordedIn(payouts), Unrecorded(p), order, chain, address);
  }

  lemma UnrecordedLast(payouts: seq<Payout>, p: Payout)
    ensures UnrecordedIn(payouts + [p]) == UnrecordedIn(payouts) + Unrecorded(p)
  {
    assert (payouts + [p])[..|payouts|] == payouts;
  }

  /** When no call failed and every chain of the order has a wallet, all that was sent is recorded. */
  lemma {:induction false} NothingUnrecorded(history: seq<Event>, missed: set<nat>, thresholds: map<(string, string), real>, config: Config,
                                             chains: set<string>)
    requires IsHistory(history, missed, thresholds, config, chains)
    requires Disturbed(history) == 0 && AllWallets(config, chains)
    ensures UnrecordedIn(PayoutsIn(history)) == []
  {
    hide PayoutMeans, DueByLog, Unrecorded, AllWallets, LogOf, ReportsIn;
    if history != [] {
      var front, e := history[..|history| - 1], history[|history| - 1];
      assert history == front + [e];
      if e.BlockRewarded? {
        RewardAdded(front, e.report);
      } else {
        PayoutAdded(front, e.payout, e.finished, e.calm);
        UnrecordedLast(PayoutsIn(front), e.payout);
      }
      NothingUnrecorded(front, missed, thresholds, config, chains);
    }
  }

  /** No two balances of any payout are paid to one address. */
  ghost predicate NeverShared(payouts: seq<Payout>, order: seq<string>) {
    forall p | p in payouts :: NoSharedAddress(p.batch, order)
  }

  lemma {:induction false} NothingReplaced(payouts: seq<Payout>, order: seq<string>)
    requires NeverShared(payouts, order)
    ensures ReplacedIn(payouts, order) == []
  {
    if payouts != [] {
      var front, last := payouts[..|payouts| - 1], payouts[|payouts| - 1];
      assert payouts == front + [last];
      NothingReplaced(front, order);
      assert last in payouts;
      if Resolved(last.batch, order) {
        NothingShadowed(last.batch, order);
      }
    }
  }

  /** When no call failed, every block was settled. */
  lemma {:induction false} AllSettled(history: seq<Event>, missed: set<nat>, thresholds: map<(string, string), real>, config: Config, chains: set<string>)
    requires IsHistory(history, missed, thresholds, config, chains) && Disturbed(history) == 0
    ensures forall p | p in ReportsIn(history) :: p.settled && Conserved(p)
  {
    if history != [] {
      var front, e := history[..|history| - 1], history[|history| - 1];
      AllSettled(front, missed, thresholds, config, chains);
    }
  }
}
