/** payouts/prop.go: the reward split over all older shares in proportion to their score. The
    split is exact, and the guard after it refuses every exact split. */
module Prop {
  import opened Outcomes
  import opened MapSums
  import opened Ledger
  import opened Shares
  import opened Scoring
  import opened Crediting
  import opened BlockFormat
  import Pplns

  const SCHEME: string := "PROP"

  /** The newest creation time, or the zero time for no shares. */
  function Newest(v: seq<Share>): Time {
    if v == [] then ZERO_TIME
    else
      var before, last := Newest(v[..|v| - 1]), v[|v| - 1].created;
      if before == ZERO_TIME || last > before then last else before
  }

  /** What reading the shares gives: each miner's score, the sum of all, and the cutoff time. */
  datatype Scan = Scan(minerScores: map<string, real>, accumlatedScore: real, cutoffTime: Time)

  function ScanOf(v: seq<Share>): Scan {
    Scan(Tally(Score, v), Total(v, None), Newest(v))
  }

  /** The inner loop over one page. */
  method ScanPage(page: seq<Share>, start: Scan, ghost seen: seq<Share>) returns (scan: Scan)
    requires start == ScanOf(seen)
    ensures scan == ScanOf(seen + page)
  {
    var minerScores, accumlatedScore, cutoffTime := start.minerScores, start.accumlatedScore, start.cutoffTime;
    assert seen + page[..0] == seen;
    for i := 0 to |page|
      invariant Scan(minerScores, accumlatedScore, cutoffTime) == ScanOf(seen + page[..i])
    {
      var share := page[i];
      var score := Score(share);
      TallyLast(Score, seen + page[..i], share);
      SumByLast(Score, seen + page[..i], share, None);
      assert ((seen + page[..i]) + [share])[..|seen + page[..i]|] == seen + page[..i];
      Pplns.ReadOne(seen, page, i);
      minerScores := AddTo(minerScores, share.miner, score);
      accumlatedScore := accumlatedScore + score;
      if cutoffTime == ZERO_TIME || share.created > cutoffTime {
        cutoffTime := share.created;
      }
    }
    assert page[..|page|] == page;
    scan := Scan(minerScores, accumlatedScore, cutoffTime);
  }

  /** Reads every older share, page by page. */
  method ScanShares(repo: ShareRepository, pool: string, created: Time, pageSize: nat)
    returns (r: Option<Scan>, ghost visit: seq<seq<Share>>)
    requires pageSize > 0
    modifies repo.calls
    ensures repo.calls.failed == old(repo.calls.failed) + if r.None? then 1 else 0
    ensures r.Some? ==> IsVisit(Eligible(repo.shares, pool, created, true), pageSize, visit) && r.value == ScanOf(Flatten(visit))
  {
    ghost var rows := Eligible(repo.shares, pool, created, true);
    ghost var pages: seq<seq<Share>> := [];
    ghost var left := rows;
    visit := [];
    var before := created;
    var inclusive := true;
    var scan := Scan(map[], 0.0, ZERO_TIME);
    while true
      invariant left == Eligible(repo.shares, pool, before, inclusive) && IsRun(rows, pageSize, pages, left)
      invariant scan == ScanOf(Flatten(pages)) && repo.calls.failed == old(repo.calls.failed)
      decreases |left|
    {
      var answer := repo.GetSharesBefore(pool, before, inclusive, pageSize);
      if !answer.Ok? {
        return None, visit;
      }
      var page := answer.value;
      scan := ScanPage(page, scan, Flatten(pages));
      if |page| < pageSize {
        ghost var rest;
        visit, rest := FinishVisit(rows, pageSize, pages, left, page);
        return Some(scan), visit;
      }
      Pplns.NextPage(repo.shares, pool, before, inclusive, rows, pageSize, pages, left, page);
      pages, left := pages + [page], Older(left, Oldest(page));
      before := page[|page| - 1].created;
      inclusive := false;
    }
  }

  /** The split, walking the score map in any order. A zero total divides to an infinity that
      no miner is there to receive. */
  method Split(minerScores: map<string, real>, accumlatedScore: real, blockReward: real)
    returns (minerRewards: map<string, real>, remainingReward: real)
    ensures minerRewards == Scale(minerScores, if accumlatedScore == 0.0 then 0.0 else blockReward / accumlatedScore)
    ensures remainingReward == blockReward - Sum(minerRewards)
  {
    var rewardPerScorePoint := if accumlatedScore == 0.0 then 0.0 else blockReward / accumlatedScore;
    remainingReward := blockReward;
    minerRewards := map[];
    var left := minerScores.Keys;
    while left != {}
      invariant left <= minerScores.Keys && minerRewards.Keys == minerScores.Keys - left
      invariant forall m | m in minerRewards :: minerRewards[m] == Times(minerScores[m], rewardPerScorePoint)
      invariant remainingReward == blockReward - Sum(minerRewards)
      decreases left
    {
      var miner :| miner in left;
      var reward := Times(minerScores[miner], rewardPerScorePoint);
      SumUpdate(minerRewards, miner, Get(minerRewards, miner) + reward);
      minerRewards := AddTo(minerRewards, miner, reward);
      remainingReward := remainingReward - reward;
      left := left - {miner};
    }
  }

  /** The rewards the scheme works out for some shares. */
  function Rewards(v: seq<Share>, blockReward: real): map<string, real> {
    Scale(Tally(Score, v), if Total(v, None) == 0.0 then 0.0 else blockReward / Total(v, None))
  }

  function Weighted(c: real): Share -> real {
    (s: Share) => Times(Score(s), c)
  }

  lemma WeightedSum(v: seq<Share>, c: real, who: Option<string>)
    ensures SumBy(Weighted(c), v, who) == Times(Total(v, who), c)
  {
    SumByScales(Score, Weighted(c), c, v, who);
  }

  /** Scaling each miner's score is the same as scaling every share. */
  lemma ScaledScores(v: seq<Share>, c: real)
    ensures Scale(Tally(Score, v), c) == Tally(Weighted(c), v)
  {
    TallyKeys(Score, v);
    TallyKeys(Weighted(c), v);
    forall m | m in Tally(Score, v) ensures Times(Tally(Score, v)[m], c) == Tally(Weighted(c), v)[m] {
      TallyGet(Score, v, m);
      TallyGet(Weighted(c), v, m);
      WeightedSum(v, c, Some(m));
    }
  }

  /** The split gives away the whole reward. */
  lemma SplitIsExact(v: seq<Share>, blockReward: real)
    requires v != []
    ensures Sum(Rewards(v, blockReward)) == blockReward
  {
    SumByPositive(Score, v);
    var c := blockReward / Total(v, None);
    ScaledScores(v, c);
    TallySum(Weighted(c), v);
    WeightedSum(v, c, None);
    Divide(blockReward, Total(v, None));
  }

  lemma Divide(blockReward: real, total: real)
    requires total > 0.0
    ensures Times(total, blockReward / total) == blockReward
  {
  }

  lemma SplitKeepsScores(v: seq<Share>, blockReward: real, miner: string)
    requires miner in Rewards(v, blockReward)
    ensures Times(Rewards(v, blockReward)[miner], Total(v, None)) == Times(Total(v, Some(miner)), blockReward)
  {
    assert v != [];
    SumByPositive(Score, v);
    TallyGet(Score, v, miner);
    Ratio(Total(v, Some(miner)), blockReward, Total(v, None));
  }

  /** A miner's reward is to the block reward as its work is to all work, a share's work being its
      own difficulty over the network's. */
  lemma SplitKeepsRatio(v: seq<Share>, blockReward: real, work: seq<real>, miner: string)
    requires miner in Rewards(v, blockReward) && ByWork(work, v, 1.0)
    ensures Times(Rewards(v, blockReward)[miner], AmountOf(work, v, None)) == Times(AmountOf(work, v, Some(miner)), blockReward)
  {
    SplitKeepsScores(v, blockReward, miner);
    TotalIsWork(v, work, 1.0, None);
    TotalIsWork(v, work, 1.0, Some(miner));
  }

  /** While the network difficulty stays the same, rewards are as the sums of difficulties. */
  lemma SplitByDifficulty(v: seq<Share>, blockReward: real, network: real, one: string, two: string)
    requires OneNetwork(v, network) && one in Rewards(v, blockReward) && two in Rewards(v, blockReward)
    ensures Times(Rewards(v, blockReward)[one], Difficulties(v, Some(two))) == Times(Rewards(v, blockReward)[two], Difficulties(v, Some(one)))
  {
    var c := if Total(v, None) == 0.0 then 0.0 else blockReward / Total(v, None);
    TallyGet(Score, v, one);
    TallyGet(Score, v, two);
    TotalIsDifficulty(v, network, Some(one));
    TotalIsDifficulty(v, network, Some(two));
    CrossMultiply(Total(v, Some(one)), Total(v, Some(two)), c, network);
  }

  lemma CrossMultiply(a: real, b: real, c: real, n: real)
    ensures Times(Times(a, c), Times(b, n)) == Times(Times(b, c), Times(a, n))
  {
    assert (a * c) * (b * n) == (b * c) * (a * n);
  }

  /** The cutoff time is the creation time of the newest share. */
  lemma {:induction false} NewestIs(v: seq<Share>)
    ensures forall s | s in v :: s.created <= Newest(v)
    ensures Newest(v) == ZERO_TIME || exists s :: s in v && s.created == Newest(v)
  {
    if v != [] {
      var front, last := v[..|v| - 1], v[|v| - 1];
      assert v == front + [last] && last in v;
      NewestIs(front);
    }
  }

  lemma Ratio(score: real, blockReward: real, total: real)
    requires total > 0.0
    ensures Times(Times(score, blockReward / total), total) == Times(score, blockReward)
  {
    Divide(blockReward, total);
    assert (score * (blockReward / total)) * total == score * ((blockReward / total) * total);
  }

  /** Neither the page size nor the order of the rows changes the split. */
  lemma SplitIsIndependent(rows: set<Share>, size1: nat, visit1: seq<seq<Share>>, size2: nat, visit2: seq<seq<Share>>, blockReward: real)
    requires IsVisit(rows, size1, visit1) && NoStraddle(rows, visit1, size1)
    requires IsVisit(rows, size2, visit2) && NoStraddle(rows, visit2, size2)
    ensures Rewards(Flatten(visit1), blockReward) == Rewards(Flatten(visit2), blockReward)
  {
    CompleteVisit(rows, size1, visit1);
    CompleteVisit(rows, size2, visit2);
    SameRowsSameTally(Score, Flatten(visit1), Flatten(visit2));
    SameRowsSameSum(Score, Flatten(visit1), Flatten(visit2), None);
  }

  lemma NothingToSplit(blockReward: real)
    ensures Rewards([], blockReward) == map[]
    ensures Sum(Rewards([], blockReward)) == 0.0
  {
    assert Tally(Score, []) == map[];
  }

  /** The guard after the split passes exactly when there was no share and there is a reward, so
      in exact arithmetic this scheme never credits a miner. */
  method UpdateMinerBalances(repo: ShareRepository, balances: BalanceRepository, pool: string, chain: string, height: nat,
                             created: Time, blockReward: real, pageSize: nat)
    returns (r: SchemeResult, ghost visit: seq<seq<Share>>)
    requires balances.Reconciled() && pageSize > 0 && repo.calls == balances.calls
    modifies balances`balances, balances`changes, balances`unposted, balances.calls
    ensures balances.Reconciled() && balances.changes == old(balances.changes)
    ensures balances.calls.failed == old(balances.calls.failed) + if r.DbFailed? then 1 else 0
    ensures Joined(old(balances.unposted), balances.unposted, |old(balances.changes)|, if r.DbFailed? then 1 else 0)
    ensures !r.DbFailed? ==> IsVisit(Eligible(repo.shares, pool, created, true), pageSize, visit)
    ensures r.Awarded? ==> Flatten(visit) == [] && blockReward > 0.0 && r.cutoff == ZERO_TIME
    ensures r.Overflow? ==> Flatten(visit) != [] || blockReward <= 0.0
  {
    var scanned;
    scanned, visit := ScanShares(repo, pool, created, pageSize);
    if scanned.None? {
      return DbFailed, visit;
    }
    var scan := scanned.value;
    var minerRewards, remainingReward := Split(scan.minerScores, scan.accumlatedScore, blockReward);
    assert minerRewards == Rewards(Flatten(visit), blockReward);
    if Flatten(visit) != [] {
      SplitIsExact(Flatten(visit), blockReward);
    } else {
      NothingToSplit(blockReward);
    }
    if remainingReward <= 0.0 {
      return Overflow, visit;
    }
    assert minerRewards == map[];
    var ok := CreditMiners(balances, minerRewards, Ticket(pool, chain, MinerReward(SCHEME, height)));
    r := if ok then Awarded(scan.cutoffTime) else DbFailed;
  }
}
