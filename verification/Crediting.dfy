/** The loop that writes a reward map to the ledger, shared by the payout schemes. */
module Crediting {
  import opened Ledger
  import opened MapSums

  /** How a scheme's `UpdateMinerBalances` ends: with a cutoff time, with the error that more
      would be awarded than there is, or with a database error. */
  datatype SchemeResult = Awarded(cutoff: nat) | Overflow | DbFailed

  /** What one block's rewards are written under. */
  datatype Ticket = Ticket(pool: string, chain: string, usage: Usage)

  /** Entries for different miners of a reward map, each with that miner's amount. */
  ghost predicate FromRewards(entries: seq<Change>, rewards: map<string, real>, t: Ticket) {
    && (forall i :: 0 <= i < |entries| ==>
          && entries[i].account.address in rewards
          && entries[i] == Change(Account(t.pool, t.chain, entries[i].account.address),
                                  rewards[entries[i].account.address], t.usage))
    && (forall i, j :: 0 <= i < j < |entries| ==> entries[i].account != entries[j].account)
  }

  ghost predicate Complete(entries: seq<Change>, rewards: map<string, real>, t: Ticket) {
    FromRewards(entries, rewards, t) && forall m | m in rewards :: Change(Account(t.pool, t.chain, m), rewards[m], t.usage) in entries
  }

  /** Writing a whole map credits exactly its total, in whatever order it was walked. */
  lemma {:induction false} CompleteTotal(entries: seq<Change>, rewards: map<string, real>, t: Ticket)
    requires Complete(entries, rewards, t) && !t.usage.Paid?
    ensures Credited(entries) == Sum(rewards)
    decreases |entries|
  {
    if entries == [] {
      assert rewards == map[];
    } else {
      var front, last := entries[..|entries| - 1], entries[|entries| - 1];
      var miner := last.account.address;
      var others := rewards - {miner};
      CompleteWithoutLast(entries, rewards, t);
      SumRemove(rewards, miner);
      CompleteTotal(front, others, t);
    }
  }

  lemma CompleteWithoutLast(entries: seq<Change>, rewards: map<string, real>, t: Ticket)
    requires Complete(entries, rewards, t) && entries != []
    ensures Complete(entries[..|entries| - 1], rewards - {entries[|entries| - 1].account.address}, t)
  {
    var front, last := entries[..|entries| - 1], entries[|entries| - 1];
    assert entries == front + [last];
    forall m | m in rewards && m != last.account.address
      ensures Change(Account(t.pool, t.chain, m), rewards[m], t.usage) in front
    {
      assert Change(Account(t.pool, t.chain, m), rewards[m], t.usage) in entries;
    }
  }

  /** Credits every miner of the map once, in any order, and stops at the first failure. */
  method CreditMiners(balances: BalanceRepository, rewards: map<string, real>, t: Ticket) returns (ok: bool)
    requires balances.Reconciled()
    modifies balances`balances, balances`changes, balances`unposted, balances.calls
    ensures balances.Reconciled() && balances.calls.failed == old(balances.calls.failed) + if ok then 0 else 1
    ensures |old(balances.changes)| <= |balances.changes|
    ensures balances.changes == old(balances.changes) + balances.changes[|old(balances.changes)|..]
    ensures FromRewards(balances.changes[|old(balances.changes)|..], rewards, t)
    ensures rewards == map[] ==> ok && balances.changes == old(balances.changes)
    ensures Joined(old(balances.unposted), balances.unposted, |old(balances.changes)|, if ok then 0 else 1)
    ensures ok ==> Complete(balances.changes[|old(balances.changes)|..], rewards, t)
  {
    var left := rewards.Keys;
    ghost var entries: seq<Change> := [];
    ghost var before := balances.changes;
    ok := true;
    while left != {}
      invariant ok && left <= rewards.Keys && balances.Reconciled() && balances.calls.failed == old(balances.calls.failed)
      invariant balances.changes == before + entries && balances.unposted == old(balances.unposted)
      invariant FromRewards(entries, rewards, t) && (rewards == map[] ==> entries == [])
      invariant forall e | e in entries :: e.account.address !in left
      invariant forall m | m in rewards && m !in left :: Change(Account(t.pool, t.chain, m), rewards[m], t.usage) in entries
      decreases left
    {
      var miner :| miner in left;
      var a := Account(t.pool, t.chain, miner);
      ok := balances.AddAmount(a, t.usage, rewards[miner]);
      if !ok {
        assert before + entries + [Change(a, rewards[miner], t.usage)] == before + (entries + [Change(a, rewards[miner], t.usage)]);
        return;
      }
      left := left - {miner};
      entries := entries + [Change(a, rewards[miner], t.usage)];
    }
  }
}
