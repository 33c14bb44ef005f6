/** persistence/stats.go and the grouping in persistence/share.go: how long a miner's shares
    cover, and the rates worked out from that. Instants and durations are in nanoseconds. */
module HashWindow {
  import opened MapSums

  /** One row of the accumulation query: a worker's shares within the window. */
  datatype Worker = Worker(miner: string, worker: string, sumDifficulty: real, shareCount: nat, firstShare: nat, lastShare: nat)

  // ---- Grouping ----------------------------------------------------------------------------

  /** A miner's rows, in their order. */
  function RowsOf(rows: seq<Worker>, miner: string): seq<Worker> {
    if rows == [] then []
    else
      var last := rows[|rows| - 1];
      RowsOf(rows[..|rows| - 1], miner) + if last.miner == miner then [last] else []
  }

  function Difficulty(rows: seq<Worker>): real {
    if rows == [] then 0.0 else Difficulty(rows[..|rows| - 1]) + rows[|rows| - 1].sumDifficulty
  }

  function Miners(rows: seq<Worker>): set<string> {
    set w | w in rows :: w.miner
  }

  function Groups(rows: seq<Worker>): map<string, seq<Worker>> {
    map m | m in Miners(rows) :: RowsOf(rows, m)
  }

  lemma RowsOfLast(rows: seq<Worker>, w: Worker, miner: string)
    ensures RowsOf(rows + [w], miner) == RowsOf(rows, miner) + if w.miner == miner then [w] else []
    ensures miner !in Miners(rows) ==> RowsOf(rows, miner) == []
  {
    assert (rows + [w])[..|rows|] == rows;
    NoRows(rows, miner);
  }

  lemma {:induction false} NoRows(rows: seq<Worker>, miner: string)
    ensures miner in Miners(rows) <==> RowsOf(rows, miner) != []
  {
    if rows != [] {
      var front, last := rows[..|rows| - 1], rows[|rows| - 1];
      NoRows(front, miner);
      assert rows == front + [last];
      assert miner in Miners(rows) <==> miner in Miners(front) || miner == last.miner by {
        assert forall w :: w in rows <==> w in front || w == last;
        if miner in Miners(front) {
          var w :| w in front && w.miner == miner;
          assert w in rows;
        }
      }
    }
  }

  lemma MinersLast(rows: seq<Worker>, w: Worker)
    ensures Miners(rows + [w]) == Miners(rows) + {w.miner}
  {
    assert forall v :: v in rows + [w] <==> v in rows || v == w;
    forall m | m in Miners(rows) + {w.miner} ensures m in Miners(rows + [w]) {
      var v :| (v in rows || v == w) && v.miner == m;
      assert v in rows + [w];
    }
  }

  lemma GroupsLast(rows: seq<Worker>, w: Worker)
    ensures Groups(rows + [w]) == Groups(rows)[w.miner := RowsOf(rows, w.miner) + [w]]
    ensures w.miner !in Groups(rows) ==> RowsOf(rows, w.miner) == []
  {
    MinersLast(rows, w);
    var after, expected := Groups(rows + [w]), Groups(rows)[w.miner := RowsOf(rows, w.miner) + [w]];
    assert after.Keys == expected.Keys;
    forall m | m in after ensures after[m] == expected[m] {
      RowsOfLast(rows, w, m);
      if m != w.miner {
        assert RowsOf(rows, m) + [] == RowsOf(rows, m);
      }
    }
    RowsOfLast(rows, w, w.miner);
  }

  /** Appends every row to its miner's group, making the group if there is none yet. */
  method GroupByMiner(results: seq<Worker>) returns (miners: map<string, seq<Worker>>)
    ensures miners == Groups(results)
  {
    miners := map[];
    for i := 0 to |results|
      invariant miners == Groups(results[..i])
    {
      var summary := results[i];
      GroupsLast(results[..i], summary);
      assert results[..i + 1] == results[..i] + [summary];
      var miner := if summary.miner in miners then miners[summary.miner] else [];
      miner := miner + [summary];
      miners := miners[summary.miner := miner];
    }
    assert results[..|results|] == results;
  }

  /** No group is empty, and a row is in its own miner's group and no other. */
  lemma {:induction false} GroupsPartition(rows: seq<Worker>, w: Worker, miner: string)
    ensures miner in Groups(rows) ==> Groups(rows)[miner] != []
    ensures miner in Groups(rows) && w in Groups(rows)[miner] <==> w in rows && w.miner == miner
  {
    NoRows(rows, miner);
    MemberOf(rows, w, miner);
  }

  lemma {:induction false} MemberOf(rows: seq<Worker>, w: Worker, miner: string)
    ensures w in RowsOf(rows, miner) <==> w in rows && w.miner == miner
  {
    if rows != [] {
      var front, last := rows[..|rows| - 1], rows[|rows| - 1];
      MemberOf(front, w, miner);
      assert rows == front + [last];
    }
  }

  function GroupDifficulties(rows: seq<Worker>): map<string, real> {
    map m | m in Groups(rows) :: Difficulty(Groups(rows)[m])
  }

  /** The same totals built up row by row. */
  function Totals(rows: seq<Worker>): map<string, real> {
    if rows == [] then map[]
    else
      var m, last := Totals(rows[..|rows| - 1]), rows[|rows| - 1];
      m[last.miner := Get(m, last.miner) + last.sumDifficulty]
  }

  lemma {:induction false} TotalsSum(rows: seq<Worker>)
    ensures Sum(Totals(rows)) == Difficulty(rows)
  {
    if rows != [] {
      var m, last := Totals(rows[..|rows| - 1]), rows[|rows| - 1];
      TotalsSum(rows[..|rows| - 1]);
      SumUpdate(m, last.miner, Get(m, last.miner) + last.sumDifficulty);
    }
  }

  lemma {:induction false} TotalsGet(rows: seq<Worker>, miner: string)
    ensures Get(Totals(rows), miner) == Difficulty(RowsOf(rows, miner))
    ensures miner in Totals(rows) <==> RowsOf(rows, miner) != []
  {
    if rows != [] {
      var front, last := rows[..|rows| - 1], rows[|rows| - 1];
      TotalsGet(front, miner);
      var group := RowsOf(front, miner);
      assert (group + [last])[..|group|] == group && group + [] == group;
    }
  }

  lemma GroupTotal(rows: seq<Worker>, miner: string)
    ensures miner in GroupDifficulties(rows) <==> miner in Totals(rows)
    ensures miner in Totals(rows) ==> GroupDifficulties(rows)[miner] == Totals(rows)[miner]
  {
    NoRows(rows, miner);
    TotalsGet(rows, miner);
  }

  /** Grouping loses no difficulty. */
  lemma GroupsKeepDifficulty(rows: seq<Worker>)
    ensures Sum(GroupDifficulties(rows)) == Difficulty(rows)
  {
    TotalsSum(rows);
    var groups, totals := GroupDifficulties(rows), Totals(rows);
    forall m ensures (m in groups <==> m in totals) && (m in totals ==> groups[m] == totals[m]) {
      GroupTotal(rows, m);
    }
    assert groups == totals;
  }

  // ---- The window a miner's shares cover ------------------------------------------------------

  const SECOND: int := 1000000000

  function Seconds(d: int): real {
    d as real / SECOND as real
  }

  datatype StatsCalcWindow = StatsCalcWindow(startDifference: int, endDifference: int)

  /** Rows as the query selects them: each worker's shares lie between the two instants. */
  ghost predicate Within(workers: seq<Worker>, timeFrom: int, now: int) {
    forall w | w in workers :: timeFrom <= w.firstShare <= w.lastShare <= now
  }

  /** The start gap reaches to the earliest first share, the end gap back to the latest last share. */
  ghost predicate Differences(window: StatsCalcWindow, now: int, timeFrom: int, workers: seq<Worker>) {
    && (forall w | w in workers :: timeFrom + window.startDifference <= w.firstShare && w.lastShare <= now - window.endDifference)
    && (exists w :: w in workers && w.firstShare == timeFrom + window.startDifference)
    && (now == window.endDifference || exists w :: w in workers && w.lastShare == now - window.endDifference)
  }

  /** The time from the start of the window to the first share, and from the last share to now. */
  method GetWindowDifferences(now: int, timeFrom: int, workers: seq<Worker>) returns (window: StatsCalcWindow)
    requires workers != []
    ensures Differences(window, now, timeFrom, workers)
  {
    var first, last := workers[0].firstShare, 0;
    ghost var least, most := workers[0], 0;
    for i := 0 to |workers|
      invariant least in workers && least.firstShare == first
      invariant last == 0 || exists j :: 0 <= j < i && workers[j].lastShare == last
      invariant forall j :: 0 <= j < i ==> first <= workers[j].firstShare && workers[j].lastShare <= last
    {
      if first > workers[i].firstShare {
        first := workers[i].firstShare;
        least := workers[i];
      }
      if last < workers[i].lastShare {
        last := workers[i].lastShare;
      }
    }
    window := StatsCalcWindow(first - timeFrom, now - last);
    assert first == timeFrom + window.startDifference && last == now - window.endDifference;
  }

  /** The gaps are not negative and together not longer than the window. */
  lemma GapsFit(window: StatsCalcWindow, now: int, timeFrom: int, workers: seq<Worker>, length: int)
    requires workers != [] && now >= 0 && Within(workers, timeFrom, now) && Differences(window, now, timeFrom, workers)
    requires now - timeFrom <= length
    ensures window.startDifference >= 0 && window.endDifference >= 0
    ensures window.startDifference + window.endDifference <= length
  {
    var first :| first in workers && first.firstShare == timeFrom + window.startDifference;
    assert first.lastShare <= now - window.endDifference;
    if now != window.endDifference {
      var last :| last in workers && last.lastShare == now - window.endDifference;
    }
  }

  /** The window before rounding: a gap at the start of a tenth or more is taken off, one at the
      end is added on. */
  function Frame(window: StatsCalcWindow, length: int): real {
    var tenth := Seconds(length) * 0.1;
    var started, ended := Seconds(window.startDifference) >= tenth, Seconds(window.endDifference) >= tenth;
    Seconds(length) - (if started then Seconds(window.startDifference) else 0.0) + (if ended then Seconds(window.endDifference) else 0.0)
  }

  function Adjusted(window: StatsCalcWindow, length: int): real {
    if Frame(window, length).Floor < 1 then 1.0 else Frame(window, length).Floor as real
  }

  method AdjustHashWindow(window: StatsCalcWindow, length: int) returns (minerHashTimeFrame: real)
    ensures minerHashTimeFrame == Adjusted(window, length)
  {
    minerHashTimeFrame := Seconds(length);
    var statsStartedAfter := Seconds(window.startDifference) >= Seconds(length) * 0.1;
    var statsEndedBefore := Seconds(window.endDifference) >= Seconds(length) * 0.1;
    if statsStartedAfter && statsEndedBefore {
      minerHashTimeFrame := Seconds(length) - Seconds(window.startDifference) + Seconds(window.endDifference);
    } else if statsStartedAfter {
      minerHashTimeFrame := Seconds(length) - Seconds(window.startDifference);
    } else if statsEndedBefore {
      minerHashTimeFrame := Seconds(length) + Seconds(window.endDifference);
    }
    minerHashTimeFrame := minerHashTimeFrame.Floor as real;
    if minerHashTimeFrame < 1.0 {
      minerHashTimeFrame := 1.0;
    }
  }

  /** The adjusted window is the frame rounded down, but never less than a second. */
  lemma AdjustedRounds(window: StatsCalcWindow, length: int)
    ensures Frame(window, length) >= 1.0 ==>
      Adjusted(window, length) <= Frame(window, length) < Adjusted(window, length) + 1.0
      && Adjusted(window, length).Floor as real == Adjusted(window, length)
    ensures Frame(window, length) < 1.0 ==> Adjusted(window, length) == 1.0
  {
  }

  /** For a window of a second or more and gaps that fit it, the adjusted window lies between one
      second and twice the window. */
  lemma AdjustedIsBounded(window: StatsCalcWindow, length: int)
    requires length >= SECOND && window.startDifference >= 0 && window.endDifference >= 0
    requires window.startDifference + window.endDifference <= length
    ensures 1.0 <= Adjusted(window, length) <= 2.0 * Seconds(length)
  {
  }

  /** How long the miner's shares do cover. */
  function Covered(window: StatsCalcWindow, length: int): real {
    Seconds(length - window.startDifference - window.endDifference)
  }

  /** A gap counts as large from a tenth of the window on. */
  predicate Large(gap: int, length: int) {
    10 * gap >= length
  }

  lemma LargeIs(gap: int, length: int)
    ensures Seconds(gap) >= Seconds(length) * 0.1 <==> Large(gap, length)
  {
    assert Seconds(length) * 0.1 == length as real / 10000000000.0;
    assert Seconds(gap) == (10 * gap) as real / 10000000000.0;
  }

  /** How far the frame exceeds the time covered: by a small gap at the start, and by the gap at
      the end once if it is small and twice if it is large. */
  lemma FrameAgainstCovered(window: StatsCalcWindow, length: int)
    ensures Frame(window, length) - Covered(window, length)
            == (if Large(window.startDifference, length) then 0.0 else Seconds(window.startDifference))
               + (if Large(window.endDifference, length) then 2.0 else 1.0) * Seconds(window.endDifference)
  {
    LargeIs(window.startDifference, length);
    LargeIs(window.endDifference, length);
    assert Covered(window, length) == Seconds(length) - Seconds(window.startDifference) - Seconds(window.endDifference);
  }

  /** The frame is the time covered exactly when there is no gap at the end, and none at the start
      or a large one. */
  lemma FrameIsCovered(window: StatsCalcWindow, length: int)
    requires length > 0 && window.startDifference >= 0 && window.endDifference >= 0
    ensures Frame(window, length) == Covered(window, length)
      <==> window.endDifference == 0 && (window.startDifference == 0 || Large(window.startDifference, length))
  {
    FrameAgainstCovered(window, length);
  }

  /** A miner whose shares fill the first two of ten minutes is weighed over eighteen. */
  lemma EndGapIsAdded()
    ensures Covered(StatsCalcWindow(0, 480 * SECOND), 600 * SECOND) == 120.0
    ensures Adjusted(StatsCalcWindow(0, 480 * SECOND), 600 * SECOND) == 1080.0
  {
    var window, length := StatsCalcWindow(0, 480 * SECOND), 600 * SECOND;
    FrameAgainstCovered(window, length);
    assert Covered(window, length) == 120.0 && Frame(window, length) == 1080.0;
  }

  // ---- Rates -----------------------------------------------------------------------------------

  /** `math.Round` to a thousandth, of a number that is not negative. */
  function RoundToThreeDigits(x: real): real {
    (x * 1000.0 + 0.5).Floor as real / 1000.0
  }

  function ShareCount(rows: seq<Worker>): nat {
    if rows == [] then 0 else ShareCount(rows[..|rows| - 1]) + rows[|rows| - 1].shareCount
  }

  function HashrateFromShares(shareSum: real, interval: real): real
    requires interval != 0.0
  {
    shareSum * 4294967296.0 / interval
  }

  /** The rate times the interval is the work: 2^32 hashes for each unit of difficulty. */
  lemma RateIsWork(shareSum: real, interval: real)
    requires interval > 0.0
    ensures Times(HashrateFromShares(shareSum, interval), interval) == shareSum * 4294967296.0
  {
  }

  /** A whole rate at which that work takes the interval, rounded down. */
  ghost predicate RateFor(rate: int, shareSum: real, interval: real) {
    Times(rate as real, interval) <= shareSum * 4294967296.0 < Times(rate as real + 1.0, interval)
  }

  lemma FlooredRate(shareSum: real, interval: real)
    requires interval > 0.0
    ensures RateFor(HashrateFromShares(shareSum, interval).Floor, shareSum, interval)
  {
    var rate := HashrateFromShares(shareSum, interval);
    RateIsWork(shareSum, interval);
    Scaled(rate.Floor as real, rate, interval);
    Scaled(rate, rate.Floor as real + 1.0, interval);
  }

  lemma Scaled(a: real, b: real, c: real)
    requires c > 0.0
    ensures a <= b ==> Times(a, c) <= Times(b, c)
    ensures a < b ==> Times(a, c) < Times(b, c)
  {
  }

  /** The pool's rates. The second divides by the window in nanoseconds. */
  method GetHashrateAndSharesPerSecond(hashSummaries: seq<Worker>, length: int) returns (hashrate: int, sharesPerSecond: real)
    requires length > 0
    ensures hashrate == HashrateFromShares(Difficulty(hashSummaries), Seconds(length)).Floor
    ensures sharesPerSecond == ShareCount(hashSummaries) as real / length as real
    ensures RateFor(hashrate, Difficulty(hashSummaries), Seconds(length))
  {
    FlooredRate(Difficulty(hashSummaries), Seconds(length));
    hide RateFor;
    var sumShares := 0.0;
    sharesPerSecond := 0.0;
    for i := 0 to |hashSummaries|
      invariant sumShares == Difficulty(hashSummaries[..i]) && sharesPerSecond == ShareCount(hashSummaries[..i]) as real
    {
      assert hashSummaries[..i + 1][..i] == hashSummaries[..i];
      sumShares := sumShares + hashSummaries[i].sumDifficulty;
      sharesPerSecond := sharesPerSecond + hashSummaries[i].shareCount as real;
    }
    assert hashSummaries[..|hashSummaries|] == hashSummaries;
    hashrate := HashrateFromShares(sumShares, Seconds(length)).Floor;
    sharesPerSecond := sharesPerSecond / length as real;
  }

  /** So the pool's shares per second are stored as zero exactly when fewer than half a million
      shares came in for every second of the window. */
  lemma StoredAsZero(count: nat, length: int)
    requires length > 0
    ensures RoundToThreeDigits(count as real / length as real) == 0.0 <==> count as real < 500000.0 * Seconds(length)
  {
    var x := count as real / length as real;
    assert x * length as real == count as real;
    Threshold(x, length as real, count as real);
  }

  lemma Threshold(x: real, length: real, count: real)
    requires length > 0.0 && count >= 0.0 && x * length == count
    ensures (x * 1000.0 + 0.5).Floor == 0 <==> count < 500000.0 * (length / 1000000000.0)
  {
    assert x < 0.0005 <==> x * length < 0.0005 * length;
    assert x >= 0.0;
  }

  datatype MinerStat = MinerStat(miner: string, worker: string, hashrate: int, sharesPerSecond: real)

  function StatOf(w: Worker, miner: string, window: real): MinerStat
    requires window != 0.0
  {
    MinerStat(miner, w.worker, HashrateFromShares(w.sumDifficulty, window).Floor, RoundToThreeDigits(w.shareCount as real / window))
  }

  /** The statistic names the row's miner and worker; its rate is the row's work over the window, rounded
      down; and its shares over the window are the row's, to half a thousandth a second. */
  ghost predicate Describes(stat: MinerStat, w: Worker, window: real) {
    && stat.miner == w.miner && stat.worker == w.worker && RateFor(stat.hashrate, w.sumDifficulty, window)
    && -0.0005 * window <= Times(stat.sharesPerSecond, window) - w.shareCount as real <= 0.0005 * window
  }

  lemma RoundsToThreeDigits(x: real)
    ensures -0.0005 <= RoundToThreeDigits(x) - x <= 0.0005
    ensures (RoundToThreeDigits(x) * 1000.0).Floor as real == RoundToThreeDigits(x) * 1000.0
  {
  }

  lemma StatDescribes(w: Worker, window: real)
    requires window > 0.0
    ensures Describes(StatOf(w, w.miner, window), w, window)
  {
    FlooredRate(w.sumDifficulty, window);
    var x, rounded := w.shareCount as real / window, StatOf(w, w.miner, window).sharesPerSecond;
    RoundsToThreeDigits(x);
    assert x * window == w.shareCount as real;
    Scaled(rounded, x + 0.0005, window);
    Scaled(x - 0.0005, rounded, window);
  }

  function StatsOf(workers: seq<Worker>, miner: string, window: real): (stats: seq<MinerStat>)
    requires window != 0.0
    ensures |stats| == |workers|
  {
    seq(|workers|, i requires 0 <= i < |workers| => StatOf(workers[i], miner, window))
  }

  /** The window of a miner is the adjusted one of its own rows' gaps. */
  ghost predicate WindowOf(window: real, now: int, timeFrom: int, length: int, workers: seq<Worker>) {
    exists gaps :: Differences(gaps, now, timeFrom, workers) && window == Adjusted(gaps, length)
  }

  /** The inner loop of the statistics: one miner's workers over that miner's window. */
  method StatsOfMiner(miner: string, workers: seq<Worker>, now: int, timeFrom: int, length: int) returns (stats: seq<MinerStat>, ghost window: real)
    requires workers != [] && length >= SECOND && now >= 0 && now - timeFrom <= length && Within(workers, timeFrom, now)
    ensures WindowOf(window, now, timeFrom, length, workers) && 1.0 <= window <= 2.0 * Seconds(length)
    ensures stats == StatsOf(workers, miner, window)
  {
    var differences := GetWindowDifferences(now, timeFrom, workers);
    GapsFit(differences, now, timeFrom, workers, length);
    AdjustedIsBounded(differences, length);
    var adjustedWindow := AdjustHashWindow(differences, length);
    window := adjustedWindow;
    stats := [];
    for i := 0 to |workers|
      invariant |stats| == i && forall j :: 0 <= j < i ==> stats[j] == StatOf(workers[j], miner, adjustedWindow)
    {
      stats := stats + [StatOf(workers[i], miner, adjustedWindow)];
    }
  }

  /** One miner as the loop over the map meets it. */
  datatype Visit = Visit(miner: string, window: real)

  function Visited(visits: seq<Visit>): set<string> {
    if visits == [] then {} else Visited(visits[..|visits| - 1]) + {visits[|visits| - 1].miner}
  }

  /** No miner is visited twice. */
  predicate Once(visits: seq<Visit>) {
    visits == [] || (Once(visits[..|visits| - 1]) && visits[|visits| - 1].miner !in Visited(visits[..|visits| - 1]))
  }

  function AllStats(rows: seq<Worker>, visits: seq<Visit>): seq<MinerStat>
    requires forall i :: 0 <= i < |visits| ==> visits[i].window >= 1.0
  {
    if visits == [] then []
    else
      var last := visits[|visits| - 1];
      AllStats(rows, visits[..|visits| - 1]) + StatsOf(RowsOf(rows, last.miner), last.miner, last.window)
  }

  /** Every visited miner's window is its own, between one second and twice the window. */
  ghost predicate OwnWindows(rows: seq<Worker>, visits: seq<Visit>, now: int, timeFrom: int, length: int) {
    forall i :: 0 <= i < |visits| ==>
      1.0 <= visits[i].window <= 2.0 * Seconds(length) && WindowOf(visits[i].window, now, timeFrom, length, RowsOf(rows, visits[i].miner))
  }

  lemma MinerStatDescribes(rows: seq<Worker>, miner: string, window: real, s: MinerStat) returns (w: Worker)
    requires window > 0.0 && s in StatsOf(RowsOf(rows, miner), miner, window)
    ensures w in rows && w.miner == miner && Describes(s, w, window)
  {
    var own := RowsOf(rows, miner);
    var stats := StatsOf(own, miner, window);
    var k :| 0 <= k < |stats| && stats[k] == s;
    w := own[k];
    MemberOf(rows, w, miner);
    StatDescribes(w, window);
  }

  lemma MinerRowHasStat(rows: seq<Worker>, window: real, w: Worker) returns (s: MinerStat)
    requires window > 0.0 && w in rows
    ensures s in StatsOf(RowsOf(rows, w.miner), w.miner, window) && Describes(s, w, window)
  {
    var own := RowsOf(rows, w.miner);
    MemberOf(rows, w, w.miner);
    var k :| 0 <= k < |own| && own[k] == w;
    s := StatsOf(own, w.miner, window)[k];
    StatDescribes(w, window);
  }

  /** Every statistic describes a row by its miner's window. */
  lemma {:induction false} StatsDescribeRows(rows: seq<Worker>, visits: seq<Visit>, s: MinerStat) returns (w: Worker, v: Visit)
    requires forall i :: 0 <= i < |visits| ==> visits[i].window >= 1.0
    requires s in AllStats(rows, visits)
    ensures w in rows && v in visits && v.miner == w.miner && Describes(s, w, v.window)
  {
    var front, last := visits[..|visits| - 1], visits[|visits| - 1];
    if s in AllStats(rows, front) {
      w, v := StatsDescribeRows(rows, front, s);
    } else {
      w := MinerStatDescribes(rows, last.miner, last.window, s);
      v := last;
    }
  }

  /** Every row of a miner met has a statistic by that miner's window. */
  lemma {:induction false} RowsHaveStats(rows: seq<Worker>, visits: seq<Visit>, w: Worker, v: Visit) returns (s: MinerStat)
    requires forall i :: 0 <= i < |visits| ==> visits[i].window >= 1.0
    requires w in rows && v in visits && v.miner == w.miner
    ensures s in AllStats(rows, visits) && Describes(s, w, v.window)
  {
    var front, last := visits[..|visits| - 1], visits[|visits| - 1];
    if v in front {
      s := RowsHaveStats(rows, front, w, v);
    } else {
      assert visits == front + [last];
      s := MinerRowHasStat(rows, v.window, w);
    }
  }

  lemma WithinGroup(rows: seq<Worker>, miner: string, timeFrom: int, now: int)
    requires Within(rows, timeFrom, now)
    ensures Within(RowsOf(rows, miner), timeFrom, now)
  {
    forall w | w in RowsOf(rows, miner) ensures w in rows {
      MemberOf(rows, w, miner);
    }
  }

  /** One turn of the loop over the map. */
  method VisitMiner(rows: seq<Worker>, miner: string, workers: seq<Worker>, now: int, timeFrom: int, length: int, ghost visits: seq<Visit>)
    returns (stats: seq<MinerStat>, ghost more: seq<Visit>)
    requires length >= SECOND && now >= 0 && now - timeFrom <= length && Within(rows, timeFrom, now)
    requires miner in Groups(rows) && workers == Groups(rows)[miner] && OwnWindows(rows, visits, now, timeFrom, length)
    ensures OwnWindows(rows, more, now, timeFrom, length) && AllStats(rows, more) == AllStats(rows, visits) + stats
    ensures Visited(more) == Visited(visits) + {miner}
    ensures Once(visits) && miner !in Visited(visits) ==> Once(more)
  {
    NoRows(rows, miner);
    WithinGroup(rows, miner, timeFrom, now);
    ghost var window;
    stats, window := StatsOfMiner(miner, workers, now, timeFrom, length);
    more := visits + [Visit(miner, window)];
    assert more[..|visits|] == visits;
  }

  /** The statistics of all miners, in any order of the map: each miner is met once, and each of
      its rows gives one statistic by that miner's own window. */
  method MakeMinerStats(rows: seq<Worker>, now: int, timeFrom: int, length: int) returns (stats: seq<MinerStat>, ghost visits: seq<Visit>)
    requires length >= SECOND && now >= 0 && now - timeFrom <= length && Within(rows, timeFrom, now)
    ensures OwnWindows(rows, visits, now, timeFrom, length) && stats == AllStats(rows, visits)
    ensures Visited(visits) == Miners(rows) && Once(visits)
  {
    var miners := GroupByMiner(rows);
    stats, visits := [], [];
    var left := miners.Keys;
    while left != {}
      invariant left <= miners.Keys
      invariant OwnWindows(rows, visits, now, timeFrom, length) && stats == AllStats(rows, visits)
      invariant Visited(visits) == miners.Keys - left && Once(visits)
      decreases left
    {
      var miner :| miner in left;
      var more;
      more, visits := VisitMiner(rows, miner, miners[miner], now, timeFrom, length, visits);
      stats := stats + more;
      left := left - {miner};
    }
  }
}
