/** Scores of shares and the maps the payout schemes build from them. */
module Scoring {
  import opened Outcomes
  import opened MapSums
  import opened Shares

  function Score(s: Share): (r: real)
    ensures r > 0.0
  {
    s.difficulty / s.networkDifficulty
  }

  /** `f` summed over the shares of a miner, or over all of them for `None`. */
  function SumBy(f: Share -> real, v: seq<Share>, who: Option<string>): real {
    if v == [] then 0.0
    else
      var last := v[|v| - 1];
      SumBy(f, v[..|v| - 1], who) + if who.None? || who.value == last.miner then f(last) else 0.0
  }

  /** The total score of a miner, or of everyone. */
  function Total(v: seq<Share>, who: Option<string>): real {
    SumBy(Score, v, who)
  }

  function AddTo(m: map<string, real>, miner: string, amount: real): map<string, real> {
    m[miner := Get(m, miner) + amount]
  }

  /** `m[miner] += f(share)` over the shares. */
  function Tally(f: Share -> real, v: seq<Share>): map<string, real> {
    if v == [] then map[]
    else
      var last := v[|v| - 1];
      AddTo(Tally(f, v[..|v| - 1]), last.miner, f(last))
  }

  lemma SumByLast(f: Share -> real, v: seq<Share>, s: Share, who: Option<string>)
    ensures SumBy(f, v + [s], who) == SumBy(f, v, who) + if who.None? || who.value == s.miner then f(s) else 0.0
  {
    assert (v + [s])[..|v|] == v;
  }

  lemma TallyLast(f: Share -> real, v: seq<Share>, s: Share)
    ensures Tally(f, v + [s]) == AddTo(Tally(f, v), s.miner, f(s))
  {
    assert (v + [s])[..|v|] == v && (v + [s])[|v|] == s;
  }

  lemma {:induction false} SumByPositive(f: Share -> real, v: seq<Share>)
    requires forall s: Share :: f(s) > 0.0
    ensures SumBy(f, v, None) >= 0.0 && (v != [] ==> SumBy(f, v, None) > 0.0)
  {
    if v != [] {
      SumByPositive(f, v[..|v| - 1]);
    }
  }

  /** The keys are the miners that have a share. */
  lemma {:induction false} TallyKeys(f: Share -> real, v: seq<Share>)
    ensures forall miner :: miner in Tally(f, v) <==> exists s :: s in v && s.miner == miner
  {
    if v != [] {
      var front, last := v[..|v| - 1], v[|v| - 1];
      TallyKeys(f, front);
      assert v == front + [last];
      assert forall s :: s in v <==> s in front || s == last;
    }
  }

  /** Each miner gets the sum over its own shares. */
  lemma {:induction false} TallyGet(f: Share -> real, v: seq<Share>, miner: string)
    ensures Get(Tally(f, v), miner) == SumBy(f, v, Some(miner))
  {
    if v != [] {
      TallyGet(f, v[..|v| - 1], miner);
    }
  }

  /** Nothing is lost between the shares and the map. */
  lemma {:induction false} TallySum(f: Share -> real, v: seq<Share>)
    ensures Sum(Tally(f, v)) == SumBy(f, v, None)
  {
    if v != [] {
      var m, last := Tally(f, v[..|v| - 1]), v[|v| - 1];
      TallySum(f, v[..|v| - 1]);
      SumUpdate(m, last.miner, Get(m, last.miner) + f(last));
    }
  }

  lemma {:induction false} SumByScales(f: Share -> real, g: Share -> real, unit: real, v: seq<Share>, who: Option<string>)
    requires forall s: Share :: g(s) == Times(f(s), unit)
    ensures SumBy(g, v, who) == Times(SumBy(f, v, who), unit)
  {
    if v != [] {
      var front, last := v[..|v| - 1], v[|v| - 1];
      SumByScales(f, g, unit, front, who);
      TimesAdd(SumBy(f, front, who), f(last), unit);
    }
  }

  lemma {:induction false} SumByAppend(f: Share -> real, v: seq<Share>, w: seq<Share>, who: Option<string>)
    ensures SumBy(f, v + w, who) == SumBy(f, v, who) + SumBy(f, w, who)
  {
    if w == [] {
      assert v + w == v;
    } else {
      var front, last := w[..|w| - 1], w[|w| - 1];
      SumByAppend(f, v, front, who);
      assert v + w == (v + front) + [last] && w == front + [last];
      SumByLast(f, v + front, last, who);
      SumByLast(f, front, last, who);
    }
  }

  lemma SumByWithout(f: Share -> real, v: seq<Share>, i: nat, who: Option<string>)
    requires i < |v|
    ensures SumBy(f, v, who) == SumBy(f, v[..i] + v[i + 1..], who) + SumBy(f, [v[i]], who)
  {
    assert v == v[..i] + ([v[i]] + v[i + 1..]);
    SumByAppend(f, v[..i], [v[i]] + v[i + 1..], who);
    SumByAppend(f, [v[i]], v[i + 1..], who);
    SumByAppend(f, v[..i], v[i + 1..], who);
  }

  /** Sums depend on which rows are visited, not on their order. */
  lemma {:induction false} SameRowsSameSum(f: Share -> real, v: seq<Share>, w: seq<Share>, who: Option<string>)
    requires Distinct(v) && Distinct(w) && forall s: Share :: s in v <==> s in w
    ensures SumBy(f, v, who) == SumBy(f, w, who)
    decreases |v|
  {
    assert w != [] ==> w[0] in w;
    if v != [] {
      var n := |v| - 1;
      var front, last := v[..n], v[n];
      assert last in w;
      var i :| 0 <= i < |w| && w[i] == last;
      var rest := w[..i] + w[i + 1..];
      assert v[..n] + v[n + 1..] == front;
      SumByWithout(f, v, n, who);
      SumByWithout(f, w, i, who);
      SameMembersWithout(v, w, i);
      SameRowsSameSum(f, front, rest, who);
    }
  }

  lemma SameMembersWithout(v: seq<Share>, w: seq<Share>, i: nat)
    requires Distinct(v) && Distinct(w) && v != [] && i < |w| && w[i] == v[|v| - 1]
    requires forall s: Share :: s in v <==> s in w
    ensures var front, rest := v[..|v| - 1], w[..i] + w[i + 1..];
      Distinct(front) && Distinct(rest) && forall s: Share :: s in front <==> s in rest
  {
    var front, last, rest := v[..|v| - 1], v[|v| - 1], w[..i] + w[i + 1..];
    forall s: Share ensures s in front <==> s in rest {
      assert s in v <==> s in front || s == last;
      assert s in w <==> s in rest || s == last;
      assert last !in front && last !in rest;
    }
  }

  /** The same rows give the same map. */
  lemma SameRowsSameTally(f: Share -> real, v: seq<Share>, w: seq<Share>)
    requires Distinct(v) && Distinct(w) && forall s: Share :: s in v <==> s in w
    ensures Tally(f, v) == Tally(f, w)
  {
    TallyKeys(f, v);
    TallyKeys(f, w);
    forall miner | miner in Tally(f, v) ensures miner in Tally(f, w) && Tally(f, v)[miner] == Tally(f, w)[miner] {
      TallyGet(f, v, miner);
      TallyGet(f, w, miner);
      SameRowsSameSum(f, v, w, Some(miner));
    }
  }

  /** More rows never have a lower total score. */
  lemma {:induction false} MoreRowsMoreScore(v: seq<Share>, w: seq<Share>)
    requires Distinct(v) && Distinct(w) && forall s | s in v :: s in w
    ensures Total(v, None) <= Total(w, None)
    decreases |v|
  {
    if v == [] {
      SumByPositive(Score, w);
    } else {
      var n := |v| - 1;
      var front, last := v[..n], v[n];
      assert last in w;
      var i :| 0 <= i < |w| && w[i] == last;
      var rest := w[..i] + w[i + 1..];
      assert v[..n] + v[n + 1..] == front;
      SumByWithout(Score, v, n, None);
      SumByWithout(Score, w, i, None);
      forall s | s in front ensures s in rest {
        assert s in v && s != last;
      }
      MoreRowsMoreScore(front, rest);
    }
  }

  // ---- In the shares' own columns ----------------------------------------------------------------

  /** One amount for each share, added up for a miner, or for everyone. */
  function AmountOf(amounts: seq<real>, v: seq<Share>, who: Option<string>): real
    requires |amounts| == |v|
  {
    if v == [] then 0.0
    else
      var n := |v| - 1;
      AmountOf(amounts[..n], v[..n], who) + if who.None? || who.value == v[n].miner then amounts[n] else 0.0
  }

  /** Each share's amount is the same multiple of its difficulty over the network's at its time. */
  ghost predicate ByWork(amounts: seq<real>, v: seq<Share>, multiple: real) {
    |amounts| == |v| && forall i :: 0 <= i < |v| ==> Times(amounts[i], v[i].networkDifficulty) == Times(v[i].difficulty, multiple)
  }

  lemma ScoreIsWork(s: Share, amount: real, multiple: real)
    requires Times(amount, s.networkDifficulty) == Times(s.difficulty, multiple)
    ensures amount == Times(Score(s), multiple)
  {
    var n, score := s.networkDifficulty, Score(s);
    assert score * n == s.difficulty;
    assert Times(amount, n) == Times(Times(score, multiple), n) by {
      assert (score * n) * multiple == (score * multiple) * n;
    }
    Cancel(amount, Times(score, multiple), n);
  }

  lemma Cancel(a: real, b: real, c: real)
    requires Times(a, c) == Times(b, c) && c > 0.0
    ensures a == b
  {
    assert a == Times(a, c) / c && b == Times(b, c) / c;
  }

  /** Any shares have such amounts. */
  lemma WorkExists(v: seq<Share>, multiple: real) returns (amounts: seq<real>)
    ensures ByWork(amounts, v, multiple)
  {
    amounts := seq(|v|, i requires 0 <= i < |v| => Times(v[i].difficulty, multiple) / v[i].networkDifficulty);
    forall i | 0 <= i < |v| ensures Times(amounts[i], v[i].networkDifficulty) == Times(v[i].difficulty, multiple) {
      assert amounts[i] == Times(v[i].difficulty, multiple) / v[i].networkDifficulty;
    }
  }

  /** Summing scores is adding up work. */
  lemma {:induction false} TotalIsWork(v: seq<Share>, amounts: seq<real>, multiple: real, who: Option<string>)
    requires ByWork(amounts, v, multiple)
    ensures AmountOf(amounts, v, who) == Times(Total(v, who), multiple)
  {
    if v != [] {
      var n := |v| - 1;
      TotalIsWork(v[..n], amounts[..n], multiple, who);
      ScoreIsWork(v[n], amounts[n], multiple);
      TimesAdd(Total(v[..n], who), Score(v[n]), multiple);
    }
  }

  /** The difficulties of a miner's shares, or of everyone's. */
  function Difficulties(v: seq<Share>, who: Option<string>): real {
    if v == [] then 0.0
    else
      var last := v[|v| - 1];
      Difficulties(v[..|v| - 1], who) + if who.None? || who.value == last.miner then last.difficulty else 0.0
  }

  ghost predicate OneNetwork(v: seq<Share>, network: real) {
    forall s | s in v :: s.networkDifficulty == network
  }

  /** At one network difficulty the scores are the difficulties, scaled down by it. */
  lemma {:induction false} TotalIsDifficulty(v: seq<Share>, network: real, who: Option<string>)
    requires OneNetwork(v, network)
    ensures Times(Total(v, who), network) == Difficulties(v, who)
  {
    if v != [] {
      var front, last := v[..|v| - 1], v[|v| - 1];
      assert v == front + [last] && last in v;
      TotalIsDifficulty(front, network, who);
      TimesAdd(Total(front, who), Score(last), network);
      assert Times(Score(last), network) == last.difficulty;
    }
  }
}
