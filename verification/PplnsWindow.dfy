/** NOT the code: what payouts/pplns.go describes, with three changes. Each score is added to the
    accumulated score, the loop stops at the share that fills the window, and a remainder of zero
    is not refused. Proved against the newest shares clipped to a total score of two. */
module PplnsWindow {
  import opened Outcomes
  import opened MapSums
  import opened Shares
  import opened Scoring
  import opened Pplns

  /** How much of the window some newest shares fill. */
  function Filled(v: seq<Share>): real {
    Clip(Total(v, None))
  }

  /** Each share, newest first, is paid for the part of the window it fills. */
  function Window(v: seq<Share>, blockReward: real): map<string, real> {
    if v == [] then map[]
    else
      var front, last := v[..|v| - 1], v[|v| - 1];
      AddTo(Window(front, blockReward), last.miner, RewardFor(Filled(v) - Filled(front), blockReward))
  }

  lemma RewardForAdd(a: real, b: real, blockReward: real)
    ensures RewardFor(a, blockReward) + RewardFor(b - a, blockReward) == RewardFor(b, blockReward)
  {
  }

  /** The window pays for exactly what it holds. */
  lemma {:induction false} WindowTotal(v: seq<Share>, blockReward: real)
    ensures Sum(Window(v, blockReward)) == RewardFor(Filled(v), blockReward)
  {
    if v != [] {
      var front, last := v[..|v| - 1], v[|v| - 1];
      var reward := RewardFor(Filled(v) - Filled(front), blockReward);
      WindowTotal(front, blockReward);
      SumUpdate(Window(front, blockReward), last.miner, Get(Window(front, blockReward), last.miner) + reward);
      RewardForAdd(Filled(front), Filled(v), blockReward);
    }
  }

  lemma FullWindowNext(v: seq<Share>, s: Share, blockReward: real, miner: string)
    requires Total(v, None) >= N_WINDOW
    ensures Get(Window(v + [s], blockReward), miner) == Get(Window(v, blockReward), miner)
  {
    SumByLast(Score, v, s, None);
    assert (v + [s])[..|v|] == v;
    assert RewardFor(0.0, blockReward) == 0.0;
  }

  /** Shares older than a full window earn nothing. */
  lemma {:induction false} OlderSharesEarnNothing(v: seq<Share>, older: seq<Share>, blockReward: real, miner: string)
    requires Total(v, None) >= N_WINDOW
    ensures Get(Window(v + older, blockReward), miner) == Get(Window(v, blockReward), miner)
    decreases |older|
  {
    if older == [] {
      assert v + older == v;
    } else {
      var front, last := older[..|older| - 1], older[|older| - 1];
      OlderSharesEarnNothing(v, front, blockReward, miner);
      SumByAppend(Score, v, front, None);
      SumByPositive(Score, front);
      assert v + older == (v + front) + [last];
      FullWindowNext(v + front, last, blockReward, miner);
    }
  }

  /** The corrected loop over the shares, newest first. It takes the least number of shares that
      fill the window, pays them for the window's parts, and leaves what is not filled: nothing
      exactly when the window is full. */
  method ScoreWindow(v: seq<Share>, blockReward: real)
    returns (minerRewards: map<string, real>, remainingReward: real, cutoffTime: Time, ghost taken: nat)
    requires blockReward > 0.0
    ensures taken <= |v| && minerRewards == Window(v[..taken], blockReward)
    ensures Sum(minerRewards) + remainingReward == blockReward && remainingReward >= 0.0
    ensures remainingReward == 0.0 <==> Total(v, None) >= N_WINDOW
    ensures if Total(v, None) < N_WINDOW then taken == |v| && cutoffTime == ZERO_TIME
            else taken > 0 && Total(v[..taken - 1], None) < N_WINDOW <= Total(v[..taken], None) && cutoffTime == v[taken - 1].created
  {
    minerRewards, remainingReward, cutoffTime, taken := map[], blockReward, ZERO_TIME, 0;
    var accumlatedScore := 0.0;
    var done := false;
    var i := 0;
    WindowTotal([], blockReward);
    assert v[..0] == [];
    while i < |v| && !done
      invariant 0 <= i <= |v| && taken == i
      invariant minerRewards == Window(v[..i], blockReward) && remainingReward == blockReward - RewardFor(Filled(v[..i]), blockReward)
      invariant accumlatedScore == Filled(v[..i]) && (done <==> Total(v[..i], None) >= N_WINDOW)
      invariant !done ==> cutoffTime == ZERO_TIME
      invariant done ==> i > 0 && Total(v[..i - 1], None) < N_WINDOW && cutoffTime == v[i - 1].created
    {
      var share := v[i];
      var score := Score(share);
      assert v[..i + 1] == v[..i] + [share] && v[..i + 1][..i] == v[..i];
      SumByLast(Score, v[..i], share, None);
      if accumlatedScore + score >= N_WINDOW {
        score := N_WINDOW - accumlatedScore;
        cutoffTime := share.created;
        done := true;
      }
      RewardForAdd(Filled(v[..i]), Filled(v[..i + 1]), blockReward);
      var reward := RewardFor(score, blockReward);
      minerRewards := AddTo(minerRewards, share.miner, reward);
      remainingReward := remainingReward - reward;
      accumlatedScore := accumlatedScore + score;
      i, taken := i + 1, taken + 1;
    }
    WindowTotal(v[..i], blockReward);
    assert v == v[..i] + v[i..];
    SumByAppend(Score, v[..i], v[i..], None);
    SumByPositive(Score, v[i..]);
    Unfilled(Filled(v[..i]), blockReward);
  }

  lemma Unfilled(filled: real, blockReward: real)
    requires filled <= N_WINDOW && blockReward > 0.0
    ensures RewardFor(filled, blockReward) <= blockReward
    ensures RewardFor(filled, blockReward) == blockReward <==> filled == N_WINDOW
  {
    RewardForAdd(filled, N_WINDOW, blockReward);
    assert RewardFor(N_WINDOW, blockReward) == blockReward;
    if filled < N_WINDOW {
      Product(N_WINDOW - filled, blockReward);
    }
  }
}
