/** payouts/rewards.go: the pool's cut of a confirmed block, then the miners' part. */
module Rewards {
  import opened Outcomes
  import opened Bytes
  import opened MapSums
  import opened Ledger
  import opened Shares
  import opened Scoring
  import opened Crediting
  import opened BlockFormat
  import Pplns
  import Prop

  datatype Recipient = Recipient(address: string, percentage: real)

  datatype ChainPayout = ChainPayout(minimumPayment: real, recipients: seq<Recipient>)

  datatype Scheme = PPLNS | PROP

  /** `nodes` lists, for each chain, where each of its nodes sends block rewards. */
  datatype Config = Config(poolName: string, chainOrder: seq<string>, payouts: map<string, ChainPayout>,
                           nodes: map<string, seq<string>>, scheme: Scheme)

  /** A confirmed block, as the reward calculation sees it. */
  datatype Confirmed = Confirmed(id: nat, chain: string, height: nat, reward: real, created: Time)

  const PAGE_SIZE: nat := 100000

  // ---- The pool's cut --------------------------------------------------------------------

  function CutOf(r: Recipient, reward: real): real {
    r.percentage * reward
  }

  function Cut(recipients: seq<Recipient>, reward: real): real {
    if recipients == [] then 0.0
    else Cut(recipients[..|recipients| - 1], reward) + CutOf(recipients[|recipients| - 1], reward)
  }

  /** What is neither credited nor kept for miners: the cuts of recipients the node pays itself. */
  function Skipped(recipients: seq<Recipient>, rewardTo: string, reward: real): real {
    if recipients == [] then 0.0
    else
      var last := recipients[|recipients| - 1];
      Skipped(recipients[..|recipients| - 1], rewardTo, reward)
      + if last.address == rewardTo then CutOf(last, reward) else 0.0
  }

  function PoolEntries(recipients: seq<Recipient>, rewardTo: string, reward: real, t: Ticket): seq<Change> {
    if recipients == [] then []
    else
      var last := recipients[|recipients| - 1];
      PoolEntries(recipients[..|recipients| - 1], rewardTo, reward, t)
      + if last.address == rewardTo then []
        else [Change(Account(t.pool, t.chain, last.address), CutOf(last, reward), t.usage)]
  }

  /** Every cut is either credited or left with the node. */
  lemma {:induction false} CutIsCreditedOrSkipped(recipients: seq<Recipient>, rewardTo: string, reward: real, t: Ticket)
    requires !t.usage.Paid?
    ensures Credited(PoolEntries(recipients, rewardTo, reward, t)) + Skipped(recipients, rewardTo, reward) == Cut(recipients, reward)
  {
    if recipients != [] {
      var front, last := recipients[..|recipients| - 1], recipients[|recipients| - 1];
      CutIsCreditedOrSkipped(front, rewardTo, reward, t);
      var entries := PoolEntries(front, rewardTo, reward, t);
      TotalsLast(entries, Change(Account(t.pool, t.chain, last.address), CutOf(last, reward), t.usage));
      assert entries + [] == entries;
    }
  }

  lemma PoolEntriesNext(recipients: seq<Recipient>, i: nat, before: seq<Change>, rewardTo: string, reward: real, t: Ticket)
    requires i < |recipients|
    ensures var c := Change(Account(t.pool, t.chain, recipients[i].address), CutOf(recipients[i], reward), t.usage);
      var entries, next := PoolEntries(recipients[..i], rewardTo, reward, t), PoolEntries(recipients[..i + 1], rewardTo, reward, t);
      if recipients[i].address == rewardTo then next == entries
      else next == entries + [c] && before + next == before + entries + [c]
  {
    assert recipients[..i + 1][..i] == recipients[..i] && recipients[..i + 1][i] == recipients[i];
    var c := Change(Account(t.pool, t.chain, recipients[i].address), CutOf(recipients[i], reward), t.usage);
    var entries := PoolEntries(recipients[..i], rewardTo, reward, t);
    assert entries + [] == entries;
    Group2(before, entries, [c]);
  }

  lemma {:induction false} PoolEntriesGive(recipients: seq<Recipient>, rewardTo: string, reward: real, t: Ticket)
    requires !t.usage.Paid?
    ensures forall c | c in PoolEntries(recipients, rewardTo, reward, t) :: !c.usage.Paid?
  {
    if recipients != [] {
      PoolEntriesGive(recipients[..|recipients| - 1], rewardTo, reward, t);
    }
  }

  /** The entries of the first recipients are the first entries. */
  lemma {:induction false} PoolEntriesPrefix(recipients: seq<Recipient>, k: nat, rewardTo: string, reward: real, t: Ticket)
    requires k <= |recipients|
    ensures PoolEntries(recipients[..k], rewardTo, reward, t) <= PoolEntries(recipients, rewardTo, reward, t)
  {
    if k == |recipients| {
      assert recipients[..k] == recipients;
    } else {
      var front := recipients[..|recipients| - 1];
      PoolEntriesPrefix(front, k, rewardTo, reward, t);
      assert front[..k] == recipients[..k];
    }
  }

  lemma CutNext(recipients: seq<Recipient>, i: nat, reward: real)
    requires i < |recipients|
    ensures Cut(recipients[..i + 1], reward) == Cut(recipients[..i], reward) + CutOf(recipients[i], reward)
  {
    assert recipients[..i + 1][..i] == recipients[..i] && recipients[..i + 1][i] == recipients[i];
  }

  function PoolTicket(config: Config, b: Confirmed): Ticket {
    Ticket(config.poolName, b.chain, PoolReward(b.height))
  }

  /** The chain's payout configuration and the node in use are there. */
  predicate Payable(config: Config, b: Confirmed, index: nat) {
    b.chain in config.payouts
    && (config.payouts[b.chain].recipients != [] ==> b.chain in config.nodes && index < |config.nodes[b.chain]|)
  }

  /** The index of the node in use is past the configured nodes, and there is a recipient to
      compare its address with. */
  predicate IndexPanics(config: Config, b: Confirmed, index: nat) {
    b.chain in config.payouts && config.payouts[b.chain].recipients != [] && b.chain in config.nodes && index >= |config.nodes[b.chain]|
  }

  function RewardTo(config: Config, b: Confirmed, index: nat): string {
    if b.chain in config.nodes && index < |config.nodes[b.chain]| then config.nodes[b.chain][index] else ""
  }

  /** The log entries of a block's recipients. */
  function BlockEntries(config: Config, b: Confirmed, index: nat): seq<Change> {
    if Payable(config, b, index)
    then PoolEntries(config.payouts[b.chain].recipients, RewardTo(config, b, index), b.reward, PoolTicket(config, b))
    else []
  }

  /** What is left of a block's reward for the miners. */
  function ForMiners(config: Config, b: Confirmed): real
    requires b.chain in config.payouts
  {
    b.reward - Cut(config.payouts[b.chain].recipients, b.reward)
  }

  function Percentages(recipients: seq<Recipient>): real {
    if recipients == [] then 0.0 else Percentages(recipients[..|recipients| - 1]) + recipients[|recipients| - 1].percentage
  }

  /** How many recipients the node does not pay itself. */
  function PaidByPool(recipients: seq<Recipient>, rewardTo: string): nat {
    if recipients == [] then 0
    else PaidByPool(recipients[..|recipients| - 1], rewardTo) + if recipients[|recipients| - 1].address == rewardTo then 0 else 1
  }

  lemma {:induction false} CutIsShare(recipients: seq<Recipient>, reward: real)
    ensures Cut(recipients, reward) == Times(Percentages(recipients), reward)
  {
    if recipients != [] {
      var front, last := recipients[..|recipients| - 1], recipients[|recipients| - 1];
      CutIsShare(front, reward);
      TimesAdd(Percentages(front), last.percentage, reward);
    }
  }

  lemma {:induction false} PoolEntriesAre(recipients: seq<Recipient>, rewardTo: string, reward: real, t: Ticket)
    ensures |PoolEntries(recipients, rewardTo, reward, t)| == PaidByPool(recipients, rewardTo)
    ensures forall c :: c in PoolEntries(recipients, rewardTo, reward, t) <==>
      exists r :: r in recipients && r.address != rewardTo && c == Change(Account(t.pool, t.chain, r.address), Times(r.percentage, reward), t.usage)
  {
    if recipients != [] {
      var front, last := recipients[..|recipients| - 1], recipients[|recipients| - 1];
      PoolEntriesAre(front, rewardTo, reward, t);
      assert recipients == front + [last];
      assert forall r :: r in recipients <==> r in front || r == last;
      assert CutOf(last, reward) == Times(last.percentage, reward);
    }
  }

  /** The recipients of a block's reward, but for those with the address that the node in use sends
      rewards to, are credited their percentage of it, each once; and the miners' part is what all
      percentages together leave. */
  lemma PoolIsPaidItsCut(config: Config, b: Confirmed, index: nat)
    requires Payable(config, b, index)
    ensures var recipients := config.payouts[b.chain].recipients;
      && ForMiners(config, b) == b.reward - Times(Percentages(recipients), b.reward)
      && (recipients == [] ==> BlockEntries(config, b, index) == [])
      && (recipients != [] ==>
            && |BlockEntries(config, b, index)| == PaidByPool(recipients, config.nodes[b.chain][index])
            && forall c :: c in BlockEntries(config, b, index) <==>
                 exists r :: r in recipients && r.address != config.nodes[b.chain][index]
                             && c == Change(Account(config.poolName, b.chain, r.address), Times(r.percentage, b.reward), PoolReward(b.height)))
  {
    var recipients := config.payouts[b.chain].recipients;
    CutIsShare(recipients, b.reward);
    PoolEntriesAre(recipients, RewardTo(config, b, index), b.reward, PoolTicket(config, b));
  }

  /** On success the recipients' entries are written and the miners' part is returned. On an
      error some first recipients may already be credited, and stay so. */
  method CalculatePoolReward(balances: BalanceRepository, config: Config, confirmed: Confirmed, index: nat)
    returns (r: Outcome<real>, ghost entries: seq<Change>)
    requires balances.Reconciled()
    modifies balances`balances, balances`changes, balances`unposted, balances.calls
    ensures balances.Reconciled() && old(balances.calls.failed) <= balances.calls.failed
    ensures Joined(old(balances.unposted), balances.unposted, |old(balances.changes)|, balances.calls.failed - old(balances.calls.failed))
    ensures r.Ok? <==> Payable(config, confirmed, index) && balances.calls.failed == old(balances.calls.failed)
    ensures r.Panic? <==> IndexPanics(config, confirmed, index)
    ensures !Payable(config, confirmed, index) ==> balances.calls.failed == old(balances.calls.failed)
    ensures balances.changes == old(balances.changes) + entries && entries <= BlockEntries(config, confirmed, index)
    ensures r.Ok? ==> entries == BlockEntries(config, confirmed, index) && r.value == ForMiners(config, confirmed)
  {
    var remainingReward := confirmed.reward;
    entries := [];
    if confirmed.chain !in config.payouts {
      return Err, entries;
    }
    var recipients := config.payouts[confirmed.chain].recipients;
    ghost var rewardTo := RewardTo(config, confirmed, index);
    ghost var t := PoolTicket(config, confirmed);
    ghost var before := balances.changes;
    assert recipients[..0] == [] && before == before + [];
    for i := 0 to |recipients|
      invariant balances.Reconciled() && balances.unposted == old(balances.unposted) && balances.calls.failed == old(balances.calls.failed)
      invariant i > 0 ==> Payable(config, confirmed, index)
      invariant balances.changes == before + entries && entries == PoolEntries(recipients[..i], rewardTo, confirmed.reward, t)
      invariant remainingReward == confirmed.reward - Cut(recipients[..i], confirmed.reward)
    {
      CutNext(recipients, i, confirmed.reward);
      PoolEntriesNext(recipients, i, before, rewardTo, confirmed.reward, t);
      PoolEntriesPrefix(recipients, i + 1, rewardTo, confirmed.reward, t);
      var recipientAmount := CutOf(recipients[i], confirmed.reward);
      remainingReward := remainingReward - recipientAmount;
      if confirmed.chain !in config.nodes {
        return Err, entries;
      }
      if index >= |config.nodes[confirmed.chain]| {
        return Panic, entries;
      }
      if recipients[i].address == config.nodes[confirmed.chain][index] {
        continue;
      }
      var a := Account(config.poolName, confirmed.chain, recipients[i].address);
      var ok := balances.AddAmount(a, PoolReward(confirmed.height), recipientAmount);
      if balances.changes != before + entries {
        entries := entries + [Change(a, recipientAmount, t.usage)];
      }
      if !ok {
        return Err, entries;
      }
    }
    assert recipients[..|recipients|] == recipients;
    return Ok(remainingReward), entries;
  }

  // ---- The whole block --------------------------------------------------------------------

  /** Where a block's reward went, and the log entries written for it. `settled` means that no call
      to the database failed on the way. */
  datatype Report = Report(id: nat, created: Time, reward: real, recipients: real, skipped: real, miners: real, remainder: real,
                           entries: seq<Change>, settled: bool)

  predicate Pays(config: Config, v: seq<Share>, forMiners: real)
    ensures Pays(config, v, forMiners) ==> v == [] || forMiners > 0.0
  {
    config.scheme.PPLNS? && (v == [] || (forMiners > 0.0 && Total(v, None) < Pplns.N_WINDOW))
  }

  /** What a settled report says when the shares `v` were visited. */
  ghost predicate Settles(p: Report, config: Config, b: Confirmed, index: nat, v: seq<Share>) {
    && p.reward == b.reward
    && if !Payable(config, b, index) then p.recipients == p.skipped == p.miners == 0.0 && p.remainder == b.reward
    else
    var recipients, forMiners := config.payouts[b.chain].recipients, ForMiners(config, b);
    && p.recipients == Credited(BlockEntries(config, b, index))
    && p.skipped == Skipped(recipients, RewardTo(config, b, index), b.reward)
    && p.miners == (if Pays(config, v, forMiners) then Sum(Tally(Pplns.Award(forMiners), v)) else 0.0)
    && p.remainder == (if Pays(config, v, forMiners) then Pplns.Kept(v, forMiners) else forMiners)
  }

  /** Money is conserved: the reward of a settled block is what recipients were credited, what
      the node paid itself, what miners were credited, and what nobody got. */
  lemma RewardIsConserved(p: Report, config: Config, b: Confirmed, index: nat, v: seq<Share>)
    requires Settles(p, config, b, index, v)
    ensures p.reward == p.recipients + p.skipped + p.miners + p.remainder
  {
    if Payable(config, b, index) {
      CutIsCreditedOrSkipped(config.payouts[b.chain].recipients, RewardTo(config, b, index), b.reward, PoolTicket(config, b));
      if Pays(config, v, ForMiners(config, b)) {
        Pplns.AwardsAndRemainder(v, ForMiners(config, b));
      }
    }
  }

  function MinerTicket(config: Config, b: Confirmed): Ticket {
    Ticket(config.poolName, b.chain, MinerReward(Pplns.SCHEME, b.height))
  }

  /** The log entries that pay the miners of a block; after a failed call, some of them. */
  ghost predicate PaysMiners(entries: seq<Change>, config: Config, b: Confirmed, v: seq<Share>, forMiners: real, settled: bool) {
    if !Pays(config, v, forMiners) then entries == []
    else if settled then Complete(entries, Tally(Pplns.Award(forMiners), v), MinerTicket(config, b))
    else FromRewards(entries, Tally(Pplns.Award(forMiners), v), MinerTicket(config, b))
  }

  lemma MinersGive(entries: seq<Change>, config: Config, b: Confirmed, v: seq<Share>, forMiners: real, settled: bool)
    requires PaysMiners(entries, config, b, v, forMiners, settled)
    ensures Reset(entries) == 0.0
    ensures settled ==> Credited(entries) == if Pays(config, v, forMiners) then Sum(Tally(Pplns.Award(forMiners), v)) else 0.0
  {
    OnlyCredits([], entries);
    if Pays(config, v, forMiners) && settled {
      CompleteTotal(entries, Tally(Pplns.Award(forMiners), v), MinerTicket(config, b));
    }
  }

  /** The miners' part, by the configured scheme. */
  method CalculateMinerRewards(repo: ShareRepository, balances: BalanceRepository, config: Config, confirmed: Confirmed, remainingReward: real)
    returns (r: SchemeResult, ghost visit: seq<seq<Share>>, ghost entries: seq<Change>)
    requires balances.Reconciled() && repo.calls == balances.calls
    modifies balances`balances, balances`changes, balances`unposted, balances.calls
    ensures balances.Reconciled() && balances.calls.failed == old(balances.calls.failed) + if r.DbFailed? then 1 else 0
    ensures Joined(old(balances.unposted), balances.unposted, |old(balances.changes)|, if r.DbFailed? then 1 else 0)
    ensures balances.changes == old(balances.changes) + entries
    ensures !r.DbFailed? || entries != [] ==>
      && IsVisit(Eligible(repo.shares, config.poolName, confirmed.created, true), PAGE_SIZE, visit)
      && PaysMiners(entries, config, confirmed, Flatten(visit), remainingReward, !r.DbFailed?)
    ensures !r.DbFailed? ==>
      (r.Awarded? <==> if config.scheme.PPLNS? then Pays(config, Flatten(visit), remainingReward)
                       else Flatten(visit) == [] && remainingReward > 0.0)
    ensures r.Awarded? ==> r.cutoff == ZERO_TIME
  {
    if config.scheme.PPLNS? {
      r, visit := Pplns.UpdateMinerBalances(repo, balances, config.poolName, confirmed.chain, confirmed.height,
                                            confirmed.created, remainingReward, PAGE_SIZE);
      entries := balances.changes[|old(balances.changes)|..];
    } else {
      r, visit := Prop.UpdateMinerBalances(repo, balances, config.poolName, confirmed.chain, confirmed.height,
                                           confirmed.created, remainingReward, PAGE_SIZE);
      entries := [];
    }
  }

  /** The log entries of a block: its recipients', then its miners'. A failed call leaves some first
      ones of the recipients, or all of these and some of the miners'. */
  ghost predicate Writes(entries: seq<Change>, settled: bool, config: Config, b: Confirmed, index: nat, v: seq<Share>) {
    if !Payable(config, b, index) then entries == []
    else
      var toPool := BlockEntries(config, b, index);
      || (!settled && entries <= toPool)
      || (toPool <= entries && PaysMiners(entries[|toPool|..], config, b, v, ForMiners(config, b), settled))
  }

  /** The report is what rewarding the block can give when the shares of `visit` were paged through. */
  ghost predicate IsReport(p: Report, config: Config, b: Confirmed, index: nat, rows: set<Share>, visit: seq<seq<Share>>) {
    && p.id == b.id && p.created == b.created && p.reward == b.reward
    && Writes(p.entries, p.settled, config, b, index, Flatten(visit)) && Credited(p.entries) == p.recipients + p.miners
    && (p.settled ==> Settles(p, config, b, index, Flatten(visit)))
    && (Payable(config, b, index) && (p.settled || |p.entries| > |BlockEntries(config, b, index)|) ==>
          IsVisit(Eligible(rows, config.poolName, b.created, true), PAGE_SIZE, visit))
  }

  /** Every entry written for a block is for its pool and chain, and names its height. */
  lemma EntriesNameBlock(p: Report, config: Config, b: Confirmed, index: nat, v: seq<Share>)
    requires Writes(p.entries, p.settled, config, b, index, v)
    ensures forall c | c in p.entries ::
      && c.account.pool == config.poolName && c.account.chain == b.chain
      && (c.usage == PoolReward(b.height) || c.usage == MinerReward("PPLNS", b.height))
  {
    if Payable(config, b, index) {
      var toPool := BlockEntries(config, b, index);
      PoolIsPaidItsCut(config, b, index);
      assert p.entries <= toPool ==> forall c | c in p.entries :: c in toPool;
      if toPool <= p.entries {
        assert p.entries == toPool + p.entries[|toPool|..];
      }
    }
  }

  /** Rewards take nothing off a balance. */
  lemma RewardsOnlyGive(p: Report, config: Config, b: Confirmed, index: nat, v: seq<Share>)
    requires Writes(p.entries, p.settled, config, b, index, v)
    ensures Reset(p.entries) == 0.0
  {
    if Payable(config, b, index) {
      var toPool := BlockEntries(config, b, index);
      PoolEntriesGive(config.payouts[b.chain].recipients, RewardTo(config, b, index), b.reward, PoolTicket(config, b));
      if p.entries <= toPool {
        OnlyCredits([], p.entries);
      } else {
        var toMiners := p.entries[|toPool|..];
        MinersGive(toMiners, config, b, v, ForMiners(config, b), p.settled);
        assert p.entries == toPool + toMiners;
        OnlyCredits([], toPool);
        ResetAppend(toPool, toMiners);
      }
    }
  }

  /** The report of a block that was stopped before its miners. */
  lemma StoppedReport(config: Config, b: Confirmed, index: nat, entries: seq<Change>, rows: set<Share>) returns (p: Report)
    requires entries <= BlockEntries(config, b, index)
    ensures IsReport(p, config, b, index, rows, []) && p.entries == entries && p.settled == !Payable(config, b, index)
  {
    p := Report(b.id, b.created, b.reward, Credited(entries), 0.0, 0.0, b.reward, entries, !Payable(config, b, index));
  }

  /** The report of a block whose miners' turn came. */
  lemma WholeReport(config: Config, b: Confirmed, index: nat, toMiners: seq<Change>, settled: bool, rows: set<Share>, visit: seq<seq<Share>>)
    returns (p: Report)
    requires Payable(config, b, index)
    requires settled || toMiners != [] ==>
      && IsVisit(Eligible(rows, config.poolName, b.created, true), PAGE_SIZE, visit)
      && PaysMiners(toMiners, config, b, Flatten(visit), ForMiners(config, b), settled)
    ensures IsReport(p, config, b, index, rows, visit)
    ensures p.entries == BlockEntries(config, b, index) + toMiners && p.settled == settled
  {
    var toPool, forMiners := BlockEntries(config, b, index), ForMiners(config, b);
    p := Report(b.id, b.created, b.reward, Credited(toPool), Skipped(config.payouts[b.chain].recipients, RewardTo(config, b, index), b.reward),
                Credited(toMiners), if Pays(config, Flatten(visit), forMiners) then Pplns.Kept(Flatten(visit), forMiners) else forMiners,
                toPool + toMiners, settled);
    CreditedAppend(toPool, toMiners);
    assert (toPool + toMiners)[|toPool|..] == toMiners;
    if settled {
      MinersGive(toMiners, config, b, Flatten(visit), forMiners, true);
    }
  }

  /** Pays one confirmed block out to the ledger. The log gains the entries of the report and
      nothing else. */
  method CalculateBlockRewards(repo: ShareRepository, balances: BalanceRepository, config: Config, confirmed: Confirmed, index: nat)
    returns (r: Outcome<Time>, ghost report: Report, ghost visit: seq<seq<Share>>)
    requires balances.Reconciled() && repo.calls == balances.calls
    modifies balances`balances, balances`changes, balances`unposted, balances.calls
    ensures balances.Reconciled() && old(balances.calls.failed) <= balances.calls.failed
    ensures Joined(old(balances.unposted), balances.unposted, |old(balances.changes)|, balances.calls.failed - old(balances.calls.failed))
    ensures balances.changes == old(balances.changes) + report.entries
    ensures IsReport(report, config, confirmed, index, repo.shares, visit)
    ensures report.settled <==> balances.calls.failed == old(balances.calls.failed)
    ensures r.Ok? ==> report.settled && r.value == ZERO_TIME
    ensures r.Panic? <==> IndexPanics(config, confirmed, index)
  {
    visit := [];
    var pool;
    ghost var toPool, toMiners;
    pool, toPool := CalculatePoolReward(balances, config, confirmed, index);
    if !pool.Ok? {
      report := StoppedReport(config, confirmed, index, toPool, repo.shares);
      return pool.PropagateFailure(), report, visit;
    }
    var scheme;
    scheme, visit, toMiners := CalculateMinerRewards(repo, balances, config, confirmed, pool.value);
    report := WholeReport(config, confirmed, index, toMiners, !scheme.DbFailed?, repo.shares, visit);
    Group2(old(balances.changes), toPool, toMiners);
    r := if scheme.Awarded? then Ok(scheme.cutoff) else Err;
  }
}
