/** payouts/pplns.go. `accumlatedScore` is declared and read but never added to, so the window
    is not a window: the code pays every stored share older than the block, or nobody. */
module Pplns {
  import opened Outcomes
  import opened MapSums
  import opened Ledger
  import opened Shares
  import opened Scoring
  import opened Crediting
  import opened BlockFormat

  const N_WINDOW: real := 2.0

  const SCHEME: string := "PPLNS"

  function RewardFor(score: real, blockReward: real): real {
    score * blockReward / N_WINDOW
  }

  /** What a share earns while its score stays below the window. */
  function Award(blockReward: real): Share -> real {
    (s: Share) => RewardFor(Score(s), blockReward)
  }

  function Clip(score: real): real {
    if score >= N_WINDOW then N_WINDOW else score
  }

  /** The shares can be paid out of the reward, with some of it left. */
  ghost predicate Affordable(v: seq<Share>, blockReward: real) {
    v == [] || (blockReward > 0.0 && Total(v, None) < N_WINDOW)
  }

  lemma AwardTotal(v: seq<Share>, who: Option<string>, blockReward: real)
    ensures SumBy(Award(blockReward), v, who) == Times(Total(v, who), blockReward / N_WINDOW)
  {
    forall s: Share ensures Award(blockReward)(s) == Times(Score(s), blockReward / N_WINDOW) {
      Halve(Score(s), blockReward);
    }
    SumByScales(Score, Award(blockReward), blockReward / N_WINDOW, v, who);
  }

  lemma Halve(score: real, blockReward: real)
    ensures RewardFor(score, blockReward) == Times(score, blockReward / N_WINDOW)
  {
  }

  /** One share more: what is left turns non-positive exactly when the shares so far cannot all
      be paid; and a share as large as the window is never paid. */
  lemma RemainingStep(blockReward: real, total: real, score: real, awarded: real, reward: real)
    requires score > 0.0 && (total == 0.0 || (blockReward > 0.0 && 0.0 <= total < N_WINDOW))
    requires awarded == Times(total, blockReward / N_WINDOW) && reward == RewardFor(Clip(score), blockReward)
    ensures blockReward - awarded - reward <= 0.0 <==> !(blockReward > 0.0 && total + score < N_WINDOW)
  {
    var unit := blockReward / N_WINDOW;
    Halve(Clip(score), blockReward);
    assert blockReward == 2.0 * unit;
    assert blockReward - awarded - reward == (2.0 - total - Clip(score)) * unit;
    Sign(2.0 - total - Clip(score), unit);
  }

  lemma Sign(a: real, b: real)
    ensures b > 0.0 ==> (a * b <= 0.0 <==> a <= 0.0)
    ensures b <= 0.0 && a >= 0.0 ==> a * b <= 0.0
  {
  }

  lemma AffordablePrefix(v: seq<Share>, rest: seq<Share>, blockReward: real)
    requires Affordable(v + rest, blockReward)
    ensures Affordable(v, blockReward)
  {
    SumByAppend(Score, v, rest, None);
    SumByPositive(Score, rest);
    SumByPositive(Score, v);
  }

  /** What the loop knows after some shares: all of them can be paid, and the map and the
      remainder are what paying them makes. */
  ghost predicate Accounted(v: seq<Share>, blockReward: real, minerRewards: map<string, real>, remainingReward: real) {
    && Affordable(v, blockReward)
    && minerRewards == Tally(Award(blockReward), v)
    && remainingReward == blockReward - SumBy(Award(blockReward), v, None)
  }

  lemma AccountedStep(v: seq<Share>, s: Share, blockReward: real, minerRewards: map<string, real>, remainingReward: real, reward: real)
    requires Accounted(v, blockReward, minerRewards, remainingReward)
    requires reward == RewardFor(Clip(Score(s)), blockReward)
    ensures remainingReward - reward <= 0.0 <==> !Affordable(v + [s], blockReward)
    ensures Affordable(v + [s], blockReward) ==>
      Accounted(v + [s], blockReward, AddTo(minerRewards, s.miner, reward), remainingReward - reward) && Score(s) < N_WINDOW
  {
    AwardTotal(v, None, blockReward);
    SumByPositive(Score, v);
    RemainingStep(blockReward, Total(v, None), Score(s), SumBy(Award(blockReward), v, None), reward);
    SumByLast(Score, v, s, None);
    SumByLast(Award(blockReward), v, s, None);
    TallyLast(Award(blockReward), v, s);
    if Affordable(v + [s], blockReward) {
      assert Score(s) < N_WINDOW;
      assert reward == Award(blockReward)(s);
    }
  }

  /** How the reading half of `UpdateMinerBalances` ends. */
  datatype Scored = Scored(minerRewards: map<string, real>, cutoffTime: Time) | TooMuch | Unread

  /** The inner loop over one page. It stops at the share that leaves nothing of the reward;
      `read` counts the shares it has gone through. */
  method ScorePage(page: seq<Share>, blockReward: real, rewards: map<string, real>, remaining: real,
                   accumlatedScore: real, cutoff: Time, ghost seen: seq<Share>)
    returns (overflow: bool, minerRewards: map<string, real>, remainingReward: real, cutoffTime: Time, done: bool, ghost read: nat)
    requires Accounted(seen, blockReward, rewards, remaining) && accumlatedScore == 0.0
    ensures read <= |page|
    ensures overflow ==> !Affordable(seen + page[..read], blockReward)
    ensures !overflow ==> Accounted(seen + page, blockReward, minerRewards, remainingReward) && cutoffTime == cutoff && !done
  {
    overflow, minerRewards, remainingReward, cutoffTime, done, read := false, rewards, remaining, cutoff, false, 0;
    assert seen + page[..0] == seen;
    for i := 0 to |page|
      invariant Accounted(seen + page[..i], blockReward, minerRewards, remainingReward)
      invariant cutoffTime == cutoff && !done && !overflow
    {
      var share := page[i];
      var score := Score(share);
      if accumlatedScore + score >= N_WINDOW {
        score := N_WINDOW - accumlatedScore;
        cutoffTime := share.created;
        done := true;
      }
      assert score == Clip(Score(share));
      var reward := RewardFor(score, blockReward);
      AccountedStep(seen + page[..i], share, blockReward, minerRewards, remainingReward, reward);
      ReadOne(seen, page, i);
      minerRewards := AddTo(minerRewards, share.miner, reward);
      remainingReward := remainingReward - reward;
      if remainingReward <= 0.0 {
        return true, minerRewards, remainingReward, cutoffTime, done, i + 1;
      }
    }
    assert page[..|page|] == page;
  }

  /** Pages through the shares and builds the reward map. It succeeds exactly when the whole
      visit can be paid, and then the cutoff time is never set. */
  method ScoreShares(repo: ShareRepository, pool: string, created: Time, blockReward: real, pageSize: nat)
    returns (r: Scored, ghost visit: seq<seq<Share>>)
    requires pageSize > 0
    modifies repo.calls
    ensures repo.calls.failed == old(repo.calls.failed) + if r.Unread? then 1 else 0
    ensures !r.Unread? ==> IsVisit(Eligible(repo.shares, pool, created, true), pageSize, visit)
    ensures r.Scored? ==> Affordable(Flatten(visit), blockReward)
                          && r.minerRewards == Tally(Award(blockReward), Flatten(visit)) && r.cutoffTime == ZERO_TIME
    ensures r.TooMuch? ==> !Affordable(Flatten(visit), blockReward)
  {
    ghost var rows := Eligible(repo.shares, pool, created, true);
    ghost var pages: seq<seq<Share>> := [];
    ghost var left := rows;
    visit := [];
    var cutoffTime := ZERO_TIME;
    var before := created;
    var inclusive := true;
    var done := false;
    var remainingReward := blockReward;
    var accumlatedScore := 0.0;
    var minerRewards: map<string, real> := map[];
    while !done
      invariant left == Eligible(repo.shares, pool, before, inclusive) && IsRun(rows, pageSize, pages, left)
      invariant !done && Accounted(Flatten(pages), blockReward, minerRewards, remainingReward)
      invariant cutoffTime == ZERO_TIME && accumlatedScore == 0.0 && repo.calls.failed == old(repo.calls.failed)
      decreases |left|
    {
      var answer := repo.GetSharesBefore(pool, before, inclusive, pageSize);
      if !answer.Ok? {
        return Unread, visit;
      }
      var page := answer.value;
      var overflow;
      ghost var read;
      overflow, minerRewards, remainingReward, cutoffTime, done, read :=
        ScorePage(page, blockReward, minerRewards, remainingReward, accumlatedScore, cutoffTime, Flatten(pages));
      if overflow {
        visit := OverflowVisit(rows, pageSize, pages, left, page, read, blockReward);
        return TooMuch, visit;
      }
      if |page| < pageSize {
        ghost var rest;
        visit, rest := FinishVisit(rows, pageSize, pages, left, page);
        return Scored(minerRewards, cutoffTime), visit;
      }
      NextPage(repo.shares, pool, before, inclusive, rows, pageSize, pages, left, page);
      pages, left := pages + [page], Older(left, Oldest(page));
      before := page[|page| - 1].created;
      inclusive := false;
    }
  }

  /** After a full page, reading goes on among strictly fewer rows. */
  lemma NextPage(shares: set<Share>, pool: string, before: Time, inclusive: bool,
                 rows: set<Share>, size: nat, pages: seq<seq<Share>>, left: set<Share>, page: seq<Share>)
    requires left == Eligible(shares, pool, before, inclusive)
    requires IsRun(rows, size, pages, left) && IsPage(left, size, page) && |page| == size > 0
    ensures Older(left, Oldest(page)) == Eligible(shares, pool, Oldest(page), false)
    ensures |Older(left, Oldest(page))| < |left|
    ensures IsRun(rows, size, pages + [page], Older(left, Oldest(page)))
    ensures Flatten(pages + [page]) == Flatten(pages) + page
  {
    OlderIsSmaller(left, size, page);
    RunExtends(rows, size, pages, left, page);
    FlattenPages(pages, [page]);
    FlattenOne(page);
    assert page[|page| - 1] in left;
    EligibleOlder(shares, pool, before, inclusive, Oldest(page));
  }

  /** All or nothing up to the first balance write: either nothing is written, or the writes are
      those of one reward map, complete unless the database fails on the way. */
  method UpdateMinerBalances(repo: ShareRepository, balances: BalanceRepository, pool: string, chain: string, height: nat,
                             created: Time, blockReward: real, pageSize: nat)
    returns (r: SchemeResult, ghost visit: seq<seq<Share>>)
    requires balances.Reconciled() && pageSize > 0 && repo.calls == balances.calls
    modifies balances`balances, balances`changes, balances`unposted, balances.calls
    ensures balances.Reconciled() && balances.calls.failed == old(balances.calls.failed) + if r.DbFailed? then 1 else 0
    ensures |old(balances.changes)| <= |balances.changes|
    ensures balances.changes == old(balances.changes) + balances.changes[|old(balances.changes)|..]
    ensures Joined(old(balances.unposted), balances.unposted, |old(balances.changes)|, if r.DbFailed? then 1 else 0)
    ensures Ends(r, Eligible(repo.shares, pool, created, true), pageSize, visit, blockReward,
                     balances.changes[|old(balances.changes)|..], Ticket(pool, chain, MinerReward(SCHEME, height)))
    ensures EndsByWork(r, Flatten(visit), blockReward, balances.changes[|old(balances.changes)|..])
  {
    hide EndsByWork;
    ghost var rows, t := Eligible(repo.shares, pool, created, true), Ticket(pool, chain, MinerReward(SCHEME, height));
    var scored;
    scored, visit := ScoreShares(repo, pool, created, blockReward, pageSize);
    if scored.Unread? {
      EndsMean(DbFailed, rows, pageSize, visit, blockReward, [], t);
      return DbFailed, visit;
    }
    if scored.TooMuch? {
      EndsMean(Overflow, rows, pageSize, visit, blockReward, [], t);
      return Overflow, visit;
    }
    var ok := CreditMiners(balances, scored.minerRewards, Ticket(pool, chain, MinerReward(SCHEME, height)));
    r := if ok then Awarded(scored.cutoffTime) else DbFailed;
    EndsMean(r, rows, pageSize, visit, blockReward, balances.changes[|old(balances.changes)|..], t);
  }

  /** The three ways `UpdateMinerBalances` ends, and the log entries each leaves. */
  ghost predicate Ends(r: SchemeResult, rows: set<Share>, size: nat, visit: seq<seq<Share>>, blockReward: real,
                           entries: seq<Change>, t: Ticket) {
    var rewards := Tally(Award(blockReward), Flatten(visit));
    match r
    case Awarded(cutoff) =>
      IsVisit(rows, size, visit) && Affordable(Flatten(visit), blockReward)
      && cutoff == ZERO_TIME && Complete(entries, rewards, t)
    case Overflow =>
      IsVisit(rows, size, visit) && !Affordable(Flatten(visit), blockReward) && entries == []
    case DbFailed =>
      entries == []
      || (IsVisit(rows, size, visit) && Affordable(Flatten(visit), blockReward) && FromRewards(entries, rewards, t))
  }

  /** Once the shares read so far cannot be paid, no visit that starts with them can be. */
  lemma OverflowVisit(rows: set<Share>, size: nat, pages: seq<seq<Share>>, left: set<Share>, page: seq<Share>, read: nat, blockReward: real)
    returns (visit: seq<seq<Share>>)
    requires size > 0 && IsRun(rows, size, pages, left) && IsPage(left, size, page) && read <= |page|
    requires !Affordable(Flatten(pages) + page[..read], blockReward)
    ensures IsVisit(rows, size, visit) && !Affordable(Flatten(visit), blockReward)
  {
    var rest;
    visit, rest := FinishVisit(rows, size, pages, left, page);
    SplitPage(Flatten(pages), page, read, rest);
    UnaffordableExtends(Flatten(pages) + page[..read], page[read..] + rest, blockReward);
  }

  lemma ReadOne(seen: seq<Share>, page: seq<Share>, i: nat)
    requires i < |page|
    ensures (seen + page[..i]) + [page[i]] == seen + page[..i + 1]
  {
  }

  lemma SplitPage(seen: seq<Share>, page: seq<Share>, read: nat, rest: seq<Share>)
    requires read <= |page|
    ensures seen + page + rest == (seen + page[..read]) + (page[read..] + rest)
  {
  }

  lemma UnaffordableExtends(v: seq<Share>, rest: seq<Share>, blockReward: real)
    requires !Affordable(v, blockReward)
    ensures !Affordable(v + rest, blockReward)
  {
    if Affordable(v + rest, blockReward) {
      AffordablePrefix(v, rest, blockReward);
    }
  }

  // ---- What the scheme promises, and what it does ------------------------------------------

  lemma AwardIsScore(v: seq<Share>, blockReward: real, miner: string)
    ensures Get(Tally(Award(blockReward), v), miner) == Times(Total(v, Some(miner)), blockReward / N_WINDOW)
  {
    TallyGet(Award(blockReward), v, miner);
    AwardTotal(v, Some(miner), blockReward);
  }

  /** Each miner is paid what its shares earn, and a share earns half the reward times its own
      difficulty over the network's. */
  lemma MinerIsPaidItsPart(v: seq<Share>, blockReward: real, earned: seq<real>, miner: string)
    requires ByWork(earned, v, blockReward / 2.0)
    ensures Get(Tally(Award(blockReward), v), miner) == AmountOf(earned, v, Some(miner))
  {
    AwardIsScore(v, blockReward, miner);
    TotalIsWork(v, earned, blockReward / 2.0, Some(miner));
  }

  /** While the network difficulty stays the same, twice that times a miner's reward is the block
      reward times the sum of its difficulties. */
  lemma PaidByDifficulty(v: seq<Share>, blockReward: real, network: real, miner: string)
    requires OneNetwork(v, network)
    ensures Times(Get(Tally(Award(blockReward), v), miner), 2.0 * network) == Times(blockReward, Difficulties(v, Some(miner)))
  {
    AwardIsScore(v, blockReward, miner);
    TotalIsDifficulty(v, network, Some(miner));
    Halves(Total(v, Some(miner)), blockReward / 2.0, network);
  }

  lemma Halves(total: real, half: real, network: real)
    ensures Times(Times(total, half), 2.0 * network) == Times(half + half, Times(total, network))
  {
    assert (total * half) * (2.0 * network) == (half + half) * (total * network);
  }

  /** The shares can be paid exactly when there are none, or there is a reward and their work is
      less than twice what a block takes. */
  lemma AffordableByWork(v: seq<Share>, blockReward: real, work: seq<real>)
    requires ByWork(work, v, 1.0)
    ensures Affordable(v, blockReward) <==> v == [] || (blockReward > 0.0 && AmountOf(work, v, None) < 2.0)
  {
    TotalIsWork(v, work, 1.0, None);
  }

  /** How `UpdateMinerBalances` ends, in the shares' own columns: it pays exactly when the visited work
      is affordable, and every entry is what its miner's shares earned. */
  ghost predicate EndsByWork(r: SchemeResult, v: seq<Share>, blockReward: real, entries: seq<Change>) {
    && (forall work | ByWork(work, v, 1.0) ::
          && (r.Awarded? || entries != [] ==> v == [] || (blockReward > 0.0 && AmountOf(work, v, None) < 2.0))
          && (r.Overflow? ==> v != [] && (blockReward <= 0.0 || AmountOf(work, v, None) >= 2.0)))
    && (forall earned, e | ByWork(earned, v, blockReward / 2.0) && e in entries ::
          e.amount == AmountOf(earned, v, Some(e.account.address)))
  }

  lemma EndsMean(r: SchemeResult, rows: set<Share>, size: nat, visit: seq<seq<Share>>, blockReward: real, entries: seq<Change>, t: Ticket)
    requires Ends(r, rows, size, visit, blockReward, entries, t)
    ensures EndsByWork(r, Flatten(visit), blockReward, entries)
  {
    var v := Flatten(visit);
    forall work | ByWork(work, v, 1.0)
      ensures Affordable(v, blockReward) <==> v == [] || (blockReward > 0.0 && AmountOf(work, v, None) < 2.0)
    {
      AffordableByWork(v, blockReward, work);
    }
    forall earned, e | ByWork(earned, v, blockReward / 2.0) && e in entries
      ensures e.amount == AmountOf(earned, v, Some(e.account.address))
    {
      MinerIsPaidItsPart(v, blockReward, earned, e.account.address);
    }
  }

  /** The part of the reward for the unfilled part of the window. */
  function Kept(v: seq<Share>, blockReward: real): real {
    Times(N_WINDOW - Total(v, None), blockReward / N_WINDOW)
  }

  /** Awards and remainder make up the reward: what is kept is the unfilled part of the window. */
  lemma AwardsAndRemainder(v: seq<Share>, blockReward: real)
    ensures Sum(Tally(Award(blockReward), v)) + Kept(v, blockReward) == blockReward
  {
    TallySum(Award(blockReward), v);
    AwardTotal(v, None, blockReward);
    SplitReward(Total(v, None), blockReward, blockReward / N_WINDOW);
  }

  lemma SplitReward(total: real, blockReward: real, unit: real)
    requires unit == blockReward / N_WINDOW
    ensures Times(total, unit) + Times(N_WINDOW - total, unit) == blockReward
  {
    assert blockReward == N_WINDOW * unit;
  }

  /** When anything is awarded it is never the whole reward. */
  lemma AwardsBelowReward(v: seq<Share>, blockReward: real)
    requires Affordable(v, blockReward) && v != []
    ensures 0.0 < Sum(Tally(Award(blockReward), v)) < blockReward
  {
    AwardsAndRemainder(v, blockReward);
    TallySum(Award(blockReward), v);
    AwardTotal(v, None, blockReward);
    SumByPositive(Score, v);
    Product(Total(v, None), blockReward / N_WINDOW);
    KeptPositive(v, blockReward);
  }

  lemma KeptPositive(v: seq<Share>, blockReward: real)
    requires blockReward > 0.0 && Total(v, None) < N_WINDOW
    ensures Kept(v, blockReward) > 0.0
  {
    Product(N_WINDOW - Total(v, None), blockReward / N_WINDOW);
  }

  lemma Product(a: real, b: real)
    requires a > 0.0 && b > 0.0
    ensures Times(a, b) > 0.0
  {
  }

  lemma SameRowsSameOutcome(v: seq<Share>, w: seq<Share>, blockReward: real)
    requires Distinct(v) && Distinct(w) && forall s: Share :: s in v <==> s in w
    ensures Affordable(v, blockReward) <==> Affordable(w, blockReward)
  {
    SameRowsSameSum(Score, v, w, None);
    assert (v != [] ==> v[0] in w) && (w != [] ==> w[0] in v);
  }

  /** The page size does not matter when no tie straddles a page. */
  lemma PageSizeIsIrrelevant(rows: set<Share>, size1: nat, visit1: seq<seq<Share>>, size2: nat, visit2: seq<seq<Share>>, blockReward: real)
    requires IsVisit(rows, size1, visit1) && NoStraddle(rows, visit1, size1)
    requires IsVisit(rows, size2, visit2) && NoStraddle(rows, visit2, size2)
    ensures Affordable(Flatten(visit1), blockReward) <==> Affordable(Flatten(visit2), blockReward)
    ensures Tally(Award(blockReward), Flatten(visit1)) == Tally(Award(blockReward), Flatten(visit2))
  {
    CompleteVisit(rows, size1, visit1);
    CompleteVisit(rows, size2, visit2);
    SameRowsSameOutcome(Flatten(visit1), Flatten(visit2), blockReward);
    SameRowsSameTally(Award(blockReward), Flatten(visit1), Flatten(visit2));
  }

  /** Every success reports the zero time as cutoff, and deleting shares before it deletes none. */
  lemma NothingIsDeleted(shares: set<Share>, pool: string)
    ensures shares - Eligible(shares, pool, ZERO_TIME, false) == shares
  {
  }

  /** So the code stalls: as soon as some stored shares add up to the window, no visit of any
      stored rows that hold them can be paid, whatever the reward, unless a tie straddles a page. */
  lemma StalledForGood(stored: seq<Share>, rows: set<Share>, size: nat, visit: seq<seq<Share>>, reward: real)
    requires Distinct(stored) && Total(stored, None) >= N_WINDOW && forall s | s in stored :: s in rows
    requires IsVisit(rows, size, visit) && NoStraddle(rows, visit, size)
    ensures Flatten(visit) != [] && Total(Flatten(visit), None) >= N_WINDOW && !Affordable(Flatten(visit), reward)
  {
    CompleteVisit(rows, size, visit);
    MoreRowsMoreScore(stored, Flatten(visit));
  }
}
