/** persistence/balance.go and persistence/payment.go: balances, their change log, and payments.
    Amounts are exact. Any call to the database may fail. */
module Ledger {
  import opened Outcomes

  datatype Account = Account(pool: string, chain: string, address: string)

  /** The `usage` text of a log entry. */
  datatype Usage = PoolReward(height: nat) | MinerReward(scheme: string, height: nat) | Paid

  datatype Change = Change(account: Account, amount: real, usage: Usage)

  datatype Payment = Payment(pool: string, chain: string, address: string, amount: real, confirmation: string)

  datatype Balance = Balance(account: Account, amount: real)

  /** The calls to the database and to wallets, each of which works or returns an error. How often
      one failed is kept for the contracts only: they let a method fail for no other reason than
      a failed call or one they name. */
  class Calls {
    ghost var failed: nat

    constructor ()
      ensures failed == 0
    {
      failed := 0;
    }

    method Attempt() returns (works: bool)
      modifies this
      ensures failed == old(failed) + if works then 0 else 1
    {
      works := *;
      if !works {
        failed := failed + 1;
      }
    }
  }

  /** What the log says an account holds, the entries at the places in `missed` left out. */
  function Logged(changes: seq<Change>, missed: set<nat>, a: Account): real {
    if changes == [] then 0.0
    else
      var n := |changes| - 1;
      Logged(changes[..n], missed, a) + if n !in missed && changes[n].account == a then changes[n].amount else 0.0
  }

  lemma LoggedLast(changes: seq<Change>, missed: set<nat>, c: Change, a: Account)
    ensures Logged(changes + [c], missed, a)
            == Logged(changes, missed, a) + if |changes| !in missed && c.account == a then c.amount else 0.0
  {
    assert (changes + [c])[..|changes|] == changes;
  }

  /** Only the places inside the log matter. */
  lemma {:induction false} LoggedAgrees(changes: seq<Change>, missed: set<nat>, others: set<nat>, a: Account)
    requires forall i | 0 <= i < |changes| :: i in missed <==> i in others
    ensures Logged(changes, missed, a) == Logged(changes, others, a)
  {
    if changes != [] {
      LoggedAgrees(changes[..|changes| - 1], missed, others, a);
    }
  }

  /** The total of the entries that give money. */
  function Credited(changes: seq<Change>): real {
    if changes == [] then 0.0
    else
      var last := changes[|changes| - 1];
      Credited(changes[..|changes| - 1]) + if last.usage.Paid? then 0.0 else last.amount
  }

  /** The total taken off balances when they are paid. */
  function Reset(changes: seq<Change>): real {
    if changes == [] then 0.0
    else
      var last := changes[|changes| - 1];
      Reset(changes[..|changes| - 1]) + if last.usage.Paid? then -last.amount else 0.0
  }

  function PaidOut(payments: seq<Payment>): real {
    if payments == [] then 0.0 else PaidOut(payments[..|payments| - 1]) + payments[|payments| - 1].amount
  }

  lemma TotalsLast(changes: seq<Change>, c: Change)
    ensures Credited(changes + [c]) == Credited(changes) + if c.usage.Paid? then 0.0 else c.amount
    ensures Reset(changes + [c]) == Reset(changes) + if c.usage.Paid? then -c.amount else 0.0
  {
    assert (changes + [c])[..|changes|] == changes;
  }

  /** Entries that give money reset nothing. */
  lemma {:induction false} OnlyCredits(before: seq<Change>, after: seq<Change>)
    requires before <= after && forall i :: |before| <= i < |after| ==> !after[i].usage.Paid?
    ensures Reset(after) == Reset(before)
    decreases |after|
  {
    if |before| < |after| {
      OnlyCredits(before, after[..|after| - 1]);
    } else {
      assert before == after;
    }
  }

  lemma {:induction false} CreditedAppend(a: seq<Change>, b: seq<Change>)
    ensures Credited(a + b) == Credited(a) + Credited(b)
  {
    if b == [] {
      assert a + b == a;
    } else {
      var front, last := b[..|b| - 1], b[|b| - 1];
      CreditedAppend(a, front);
      assert a + b == (a + front) + [last] && b == front + [last];
      TotalsLast(a + front, last);
      TotalsLast(front, last);
    }
  }

  lemma {:induction false} ResetAppend(a: seq<Change>, b: seq<Change>)
    ensures Reset(a + b) == Reset(a) + Reset(b)
  {
    if b == [] {
      assert a + b == a;
    } else {
      var front, last := b[..|b| - 1], b[|b| - 1];
      ResetAppend(a, front);
      assert a + b == (a + front) + [last] && b == front + [last];
      TotalsLast(a + front, last);
      TotalsLast(front, last);
    }
  }

  /** The balances of a pool and chain that reach their miner's threshold, or `minimum`. */
  ghost predicate IsDue(rows: map<Account, real>, thresholds: map<(string, string), real>, pool: string, chain: string, minimum: real, a: Account) {
    && a in rows && a.pool == pool && a.chain == chain
    && rows[a] >= if (pool, a.address) in thresholds then thresholds[(pool, a.address)] else minimum
  }

  lemma DueMeans(rows: map<Account, real>, thresholds: map<(string, string), real>, pool: string, chain: string, minimum: real, address: string)
    ensures var a := Account(pool, chain, address);
      IsDue(rows, thresholds, pool, chain, minimum, a) <==>
        && a in rows
        && ((pool, address) in thresholds ==> rows[a] >= thresholds[(pool, address)])
        && ((pool, address) !in thresholds ==> rows[a] >= minimum)
    ensures forall a | IsDue(rows, thresholds, pool, chain, minimum, a) :: a.pool == pool && a.chain == chain
  {
  }

  function Held(rows: map<Account, real>, a: Account): real {
    if a in rows then rows[a] else 0.0
  }

  /** Every balance is what its log entries add up to, the unposted ones left out. */
  ghost predicate AddsUp(rows: map<Account, real>, changes: seq<Change>, unposted: set<nat>) {
    forall a: Account :: Held(rows, a) == Logged(changes, unposted, a)
  }

  ghost predicate Below(places: set<nat>, n: nat) {
    forall i | i in places :: i < n
  }

  /** Places from `n` on may have joined, at most one for each of so many failed calls. */
  ghost predicate Joined(before: set<nat>, after: set<nat>, n: nat, failures: int) {
    && before <= after && (forall i | i in after && i !in before :: n <= i)
    && |after| <= |before| + failures && (failures == 0 ==> after == before)
  }

  lemma LogOnly(rows: map<Account, real>, changes: seq<Change>, unposted: set<nat>, c: Change)
    requires AddsUp(rows, changes, unposted)
    ensures AddsUp(rows, changes + [c], unposted + {|changes|})
  {
    forall a: Account ensures Held(rows, a) == Logged(changes + [c], unposted + {|changes|}, a) {
      LoggedLast(changes, unposted + {|changes|}, c, a);
      LoggedAgrees(changes, unposted, unposted + {|changes|}, a);
    }
  }

  lemma LogAndPost(rows: map<Account, real>, changes: seq<Change>, unposted: set<nat>, c: Change)
    requires AddsUp(rows, changes, unposted) && |changes| !in unposted
    ensures AddsUp(rows[c.account := Held(rows, c.account) + c.amount], changes + [c], unposted)
  {
    var after := rows[c.account := Held(rows, c.account) + c.amount];
    forall a: Account ensures Held(after, a) == Logged(changes + [c], unposted, a) {
      LoggedLast(changes, unposted, c, a);
      assert Held(rows, a) == Logged(changes, unposted, a);
    }
  }

  class BalanceRepository {
    const calls: Calls
    var balances: map<Account, real>
    var changes: seq<Change>
    /** The thresholds some miners chose, by pool and address. */
    var thresholds: map<(string, string), real>
    /** The places of the log entries whose balance was never updated, because a later query failed. */
    ghost var unposted: set<nat>

    function Amount(a: Account): real
      reads this
    {
      Held(balances, a)
    }

    ghost predicate Reconciled()
      reads this
    {
      AddsUp(balances, changes, unposted) && Below(unposted, |changes|)
    }

    constructor (calls: Calls)
      ensures this.calls == calls
      ensures balances == map[] && changes == [] && thresholds == map[] && unposted == {} && Reconciled()
    {
      this.calls := calls;
      balances, changes, thresholds, unposted := map[], [], map[], {};
    }

    method GetBalance(a: Account) returns (r: Outcome<Option<real>>)
      modifies calls
      ensures r.Ok? ==> calls.failed == old(calls.failed) && r.value == if a in balances then Some(balances[a]) else None
      ensures !r.Ok? ==> calls.failed == old(calls.failed) + 1
    {
      var works := calls.Attempt();
      if !works {
        return Err;
      }
      return Ok(if a in balances then Some(balances[a]) else None);
    }

    method Insert(a: Account, amount: real) returns (ok: bool)
      requires a !in balances
      modifies this`balances, calls
      ensures calls.failed == old(calls.failed) + if ok then 0 else 1
      ensures balances == if ok then old(balances)[a := amount] else old(balances)
    {
      ok := calls.Attempt();
      if ok {
        balances := balances[a := amount];
      }
    }

    method Update(a: Account, amount: real) returns (ok: bool)
      requires a in balances
      modifies this`balances, calls
      ensures calls.failed == old(calls.failed) + if ok then 0 else 1
      ensures balances == if ok then old(balances)[a := old(balances)[a] + amount] else old(balances)
    {
      ok := calls.Attempt();
      if ok {
        balances := balances[a := balances[a] + amount];
      }
    }

    /** The half of `AddAmount` after the log: the balance is made or updated. */
    method Post(a: Account, amount: real) returns (ok: bool)
      modifies this`balances, calls
      ensures calls.failed == old(calls.failed) + if ok then 0 else 1
      ensures balances == if ok then old(balances)[a := Held(old(balances), a) + amount] else old(balances)
    {
      var balance := GetBalance(a);
      if !balance.Ok? {
        return false;
      }
      if balance.value.None? {
        ok := Insert(a, amount);
      } else {
        ok := Update(a, amount);
      }
    }

    /** On success one entry is logged and posted. On failure no balance changes, and the entry
        is either absent or logged without being posted. */
    method AddAmount(a: Account, usage: Usage, amount: real) returns (ok: bool)
      requires Reconciled()
      modifies this`balances, this`changes, this`unposted, calls
      ensures Reconciled() && calls.failed == old(calls.failed) + if ok then 0 else 1
      ensures var c := Change(a, amount, usage);
        if ok then
          && changes == old(changes) + [c] && unposted == old(unposted)
          && balances == old(balances)[a := old(Amount(a)) + amount]
        else
          && balances == old(balances)
          && ((changes == old(changes) && unposted == old(unposted))
              || (changes == old(changes) + [c] && unposted == old(unposted) + {|old(changes)|}))
      ensures Joined(old(unposted), unposted, |old(changes)|, calls.failed - old(calls.failed))
    {
      ok := calls.Attempt();
      if !ok {
        return;
      }
      var c := Change(a, amount, usage);
      changes := changes + [c];
      unposted := unposted + {|changes| - 1};
      ok := Post(a, amount);
      if ok {
        unposted := old(unposted);
        LogAndPost(old(balances), old(changes), old(unposted), c);
      } else {
        LogOnly(old(balances), old(changes), old(unposted), c);
      }
    }

    ghost predicate Due(pool: string, chain: string, minimum: real, a: Account)
      reads this
    {
      IsDue(balances, thresholds, pool, chain, minimum, a)
    }

    method GetPoolBalancesOverThreshold(pool: string, chain: string, minimum: real) returns (r: Outcome<seq<Balance>>)
      modifies calls
      ensures calls.failed == old(calls.failed) + if r.Ok? then 0 else 1
      ensures r.Ok? ==>
        && (forall b | b in r.value :: Due(pool, chain, minimum, b.account) && b.amount == balances[b.account])
        && (forall a :: Due(pool, chain, minimum, a) ==> Balance(a, balances[a]) in r.value)
        && (forall i, j :: 0 <= i < j < |r.value| ==> r.value[i].account != r.value[j].account)
      ensures !r.Panic?
    {
      var works := calls.Attempt();
      if !works {
        return Err;
      }
      var rows: seq<Balance> := [];
      var left := balances.Keys;
      while left != {}
        invariant left <= balances.Keys
        invariant forall b | b in rows :: Due(pool, chain, minimum, b.account) && b.amount == balances[b.account] && b.account !in left
        invariant forall a :: Due(pool, chain, minimum, a) && a !in left ==> Balance(a, balances[a]) in rows
        invariant forall i, j :: 0 <= i < j < |rows| ==> rows[i].account != rows[j].account
        decreases left
      {
        var a :| a in left;
        left := left - {a};
        var limit := if (pool, a.address) in thresholds then thresholds[(pool, a.address)] else minimum;
        if a.pool == pool && a.chain == chain && balances[a] >= limit {
          rows := rows + [Balance(a, balances[a])];
        }
      }
      return Ok(rows);
    }
  }

  class PaymentRepository {
    const calls: Calls
    var payments: seq<Payment>

    constructor (calls: Calls)
      ensures this.calls == calls && payments == []
    {
      this.calls, payments := calls, [];
    }

    method Insert(p: Payment) returns (ok: bool)
      modifies this, calls
      ensures calls.failed == old(calls.failed) + if ok then 0 else 1
      ensures payments == if ok then old(payments) + [p] else old(payments)
    {
      ok := calls.Attempt();
      if ok {
        payments := payments + [p];
      }
    }
  }
}
