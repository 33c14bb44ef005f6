/** What block reports, payments and log entries add up to. */
module Books {
  import opened Outcomes
  import opened MapSums
  import opened Ledger
  import opened Shares
  import opened BlockFormat
  import opened Rewards
  import opened Payer
  import opened Settlement

  function Unit(b: bool): nat {
    if b then 1 else 0
  }

  /** How often a block was handed to the reward calculation. */
  function Handed(reports: seq<Report>, id: nat): nat {
    if reports == [] then 0
    else Handed(reports[..|reports| - 1], id) + if reports[|reports| - 1].id == id then 1 else 0
  }

  /** What the reports say recipients and miners were credited. */
  function Given(reports: seq<Report>): real {
    if reports == [] then 0.0
    else Given(reports[..|reports| - 1]) + reports[|reports| - 1].recipients + reports[|reports| - 1].miners
  }

  /** What the nodes were paid for themselves and what nobody got. */
  function Kept(reports: seq<Report>): real {
    if reports == [] then 0.0
    else Kept(reports[..|reports| - 1]) + reports[|reports| - 1].skipped + reports[|reports| - 1].remainder
  }

  function Earned(reports: seq<Report>): real {
    if reports == [] then 0.0 else Earned(reports[..|reports| - 1]) + reports[|reports| - 1].reward
  }

  /** The entries of the report give what it says was credited and take nothing, and a settled one
      accounts for the whole reward. */
  ghost predicate Conserved(p: Report) {
    && Credited(p.entries) == p.recipients + p.miners && Reset(p.entries) == 0.0
    && (p.settled ==> p.reward == p.recipients + p.skipped + p.miners + p.remainder)
  }

  lemma ReportIsConserved(p: Report, config: Config, b: Confirmed, index: nat, rows: set<Share>, visit: seq<seq<Share>>)
    requires IsReport(p, config, b, index, rows, visit)
    ensures Conserved(p)
  {
    RewardsOnlyGive(p, config, b, index, Flatten(visit));
    if p.settled {
      RewardIsConserved(p, config, b, index, Flatten(visit));
    }
  }

  lemma ReportsLast(reports: seq<Report>, p: Report, id: nat)
    ensures Handed(reports + [p], id) == Handed(reports, id) + if p.id == id then 1 else 0
    ensures Given(reports + [p]) == Given(reports) + p.recipients + p.miners
  {
    assert (reports + [p])[..|reports|] == reports;
  }

  lemma {:induction false} HandedOnce(reports: seq<Report>, id: nat)
    ensures Handed(reports, id) >= 1 <==> exists p :: p in reports && p.id == id
  {
    if reports != [] {
      var front, last := reports[..|reports| - 1], reports[|reports| - 1];
      assert reports == front + [last];
      HandedOnce(front, id);
    }
  }

  /** Two reports name a block exactly when it was handed over more than once. */
  lemma {:induction false} HandedRepeats(reports: seq<Report>, id: nat)
    ensures Handed(reports, id) <= 1 <==> forall i, j :: 0 <= i < j < |reports| ==> !(reports[i].id == id == reports[j].id)
  {
    if reports != [] {
      var front, n := reports[..|reports| - 1], |reports| - 1;
      assert forall k :: 0 <= k < n ==> front[k] == reports[k];
      HandedRepeats(front, id);
      HandedOnce(front, id);
      if reports[n].id == id && Handed(front, id) >= 1 {
        var p :| p in front && p.id == id;
        var k :| 0 <= k < n && front[k] == p;
        assert reports[k].id == id == reports[n].id;
      }
      if Handed(front, id) >= 2 {
        var i, j :| 0 <= i < j < n && front[i].id == id == front[j].id;
        assert reports[i].id == id == reports[j].id;
      }
      if Handed(reports, id) <= 1 {
        forall i, j | 0 <= i < j < |reports| ensures !(reports[i].id == id == reports[j].id) {
          if j < n {
            assert front[i] == reports[i] && front[j] == reports[j];
          } else {
            assert front[i] in front;
          }
        }
      }
    }
  }

  /** Over settled reports, what was earned was given or kept. */
  lemma {:induction false} EarnedIsGivenOrKept(reports: seq<Report>)
    requires forall p | p in reports :: p.settled && Conserved(p)
    ensures Earned(reports) == Given(reports) + Kept(reports)
  {
    if reports != [] {
      EarnedIsGivenOrKept(reports[..|reports| - 1]);
    }
  }

  function TotalAmount(rows: seq<Balance>): real {
    if rows == [] then 0.0 else TotalAmount(rows[..|rows| - 1]) + rows[|rows| - 1].amount
  }

  lemma {:induction false} TotalAmountAppend(a: seq<Balance>, b: seq<Balance>)
    ensures TotalAmount(a + b) == TotalAmount(a) + TotalAmount(b)
  {
    if b == [] {
      assert a + b == a;
    } else {
      TotalAmountAppend(a, b[..|b| - 1]);
      assert (a + b)[..|a + b| - 1] == a + b[..|b| - 1];
    }
  }

  lemma {:induction false} PaidOutAppend(a: seq<Payment>, b: seq<Payment>)
    ensures PaidOut(a + b) == PaidOut(a) + PaidOut(b)
  {
    if b == [] {
      assert a + b == a;
    } else {
      PaidOutAppend(a, b[..|b| - 1]);
      assert (a + b)[..|a + b| - 1] == a + b[..|b| - 1];
    }
  }

  /** `m` payments against `n` resets of a batch. */
  lemma RecordedTotals(batch: seq<Balance>, n: nat, m: nat, order: seq<string>, confirmations: map<string, string>)
    requires n <= m <= n + 1 && m <= |batch|
    ensures Credited(ResetsOf(batch[..n])) == 0.0
    ensures PaidOut(PaymentsOf(batch[..m], order, confirmations)) == Reset(ResetsOf(batch[..n])) + TotalAmount(batch[n..m])
  {
    ResetTotals(batch[..n], order, confirmations);
    if n < m {
      ResetTotals(batch[..m], order, confirmations);
      RecordNext(batch, n, order, confirmations);
      TotalsLast(ResetsOf(batch[..n]), ResetOf(batch[n]));
      assert batch[n..m] == [batch[n]] && [batch[n]][..0] == [];
    }
  }

  /** A payout credits nobody, and its payments exceed its resets by at most one balance, the one
      it stopped at. */
  lemma PayoutTotals(p: Payout, order: seq<string>, finished: bool)
    requires PayoutMeans(p, order, finished)
    ensures Credited(p.entries) == 0.0
    ensures PaidOut(p.payments) == Reset(p.entries) + TotalAmount(Unreset(p))
    ensures |Unreset(p)| <= 1 && (finished ==> Unreset(p) == [])
    ensures Unreset(p) <= p.batch[if p.reset <= |p.batch| then p.reset else 0..]
  {
    if Resolved(p.batch, order) {
      var n, m := Ends(p, order);
      RecordedTotals(p.batch, n, m, order, p.confirmations);
      RecordCounts(p.batch[..n], order, p.confirmations);
      RecordCounts(p.batch[..m], order, p.confirmations);
      if finished {
        RecordCounts(p.batch, order, p.confirmations);
      }
    }
  }

  lemma Ends(p: Payout, order: seq<string>) returns (n: nat, m: nat)
    requires Recorded(p.batch, p.reset, order, p.confirmations, p.payments, p.entries)
    ensures n <= m <= n + 1 && m <= |p.batch| && p.reset <= n && (n < m ==> n == p.reset)
    ensures p.payments == PaymentsOf(p.batch[..m], order, p.confirmations) && p.entries == ResetsOf(p.batch[..n])
  {
    n := if p.entries == ResetsOf(p.batch[..p.reset]) then p.reset else p.reset + 1;
    m := if p.payments == PaymentsOf(p.batch[..p.reset], order, p.confirmations) && n == p.reset then p.reset else p.reset + 1;
  }

  // ---- The total on all balances -----------------------------------------------------------------

  /** The log turned into one balance for each account. */
  function Posted(changes: seq<Change>): map<Account, real> {
    if changes == [] then map[]
    else
      var m, last := Posted(changes[..|changes| - 1]), changes[|changes| - 1];
      m[last.account := Get(m, last.account) + last.amount]
  }

  lemma {:induction false} PostedTotals(changes: seq<Change>)
    ensures Sum(Posted(changes)) == Credited(changes) - Reset(changes)
    ensures forall a: Account :: Get(Posted(changes), a) == Logged(changes, {}, a)
  {
    if changes != [] {
      var front, last := changes[..|changes| - 1], changes[|changes| - 1];
      PostedTotals(front);
      SumUpdate(Posted(front), last.account, Get(Posted(front), last.account) + last.amount);
    }
  }

  /** Maps that agree up to zero entries have the same total. */
  lemma {:induction false} SameTotals(m: map<Account, real>, n: map<Account, real>)
    requires forall a: Account :: Get(m, a) == Get(n, a)
    ensures Sum(m) == Sum(n)
    decreases |m| + |n|
  {
    if a :| a in m {
      SumRemove(m, a);
      assert Get(m, a) == Get(n, a);
      if a in n {
        SumRemove(n, a);
      } else {
        assert n - {a} == n;
      }
      forall b: Account ensures Get(m - {a}, b) == Get(n - {a}, b) {
        assert Get(m, b) == Get(n, b);
      }
      SameTotals(m - {a}, n - {a});
    } else if a :| a in n {
      SumRemove(n, a);
      assert Get(m, a) == Get(n, a);
      forall b: Account ensures Get(m, b) == Get(n - {a}, b) {
        assert Get(m, b) == Get(n, b);
      }
      SameTotals(m, n - {a});
    } else {
      assert m == map[] && n == map[];
    }
  }

  /** When every log entry is posted, all balances together hold what was credited less what was
      reset. */
  lemma BalancesTotal(balances: map<Account, real>, changes: seq<Change>)
    requires forall a: Account :: Get(balances, a) == Logged(changes, {}, a)
    ensures Sum(balances) == Credited(changes) - Reset(changes)
  {
    PostedTotals(changes);
    SameTotals(balances, Posted(changes));
  }
}
