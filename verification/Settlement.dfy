/** What payouts/payer.go sent, recorded and reset, compared address by address and balance by
    balance. */
module Settlement {
  import opened Outcomes
  import opened Ledger
  import opened Payer

  // ---- Records ---------------------------------------------------------------------------------

  function PaymentOf(b: Balance, order: seq<string>, confirmations: map<string, string>): Payment {
    var address := PayAddress(b.account, order);
    Payment(b.account.pool, b.account.chain, if address.Ok? then address.value else "", b.amount,
            if b.account.chain in confirmations then confirmations[b.account.chain] else "")
  }

  function PaymentsOf(batch: seq<Balance>, order: seq<string>, confirmations: map<string, string>): seq<Payment> {
    if batch == [] then []
    else PaymentsOf(batch[..|batch| - 1], order, confirmations) + [PaymentOf(batch[|batch| - 1], order, confirmations)]
  }

  function ResetOf(b: Balance): Change {
    Change(b.account, -b.amount, Paid)
  }

  function ResetsOf(batch: seq<Balance>): seq<Change> {
    if batch == [] then [] else ResetsOf(batch[..|batch| - 1]) + [ResetOf(batch[|batch| - 1])]
  }

  /** What the recording loop has done: for the first `reset` balances a payment, a log entry and
      a smaller balance; for the next one at most a payment, and at most with it a log entry
      whose balance was not updated. */
  ghost predicate Recorded(batch: seq<Balance>, reset: nat, order: seq<string>, confirmations: map<string, string>,
                           payments: seq<Payment>, entries: seq<Change>) {
    && reset <= |batch|
    && ((payments == PaymentsOf(batch[..reset], order, confirmations) && entries == ResetsOf(batch[..reset]))
        || (reset < |batch| && payments == PaymentsOf(batch[..reset + 1], order, confirmations)
            && (entries == ResetsOf(batch[..reset]) || entries == ResetsOf(batch[..reset + 1]))))
  }

  lemma RecordNext(batch: seq<Balance>, k: nat, order: seq<string>, confirmations: map<string, string>)
    requires k < |batch|
    ensures PaymentsOf(batch[..k + 1], order, confirmations)
            == PaymentsOf(batch[..k], order, confirmations) + [PaymentOf(batch[k], order, confirmations)]
    ensures ResetsOf(batch[..k + 1]) == ResetsOf(batch[..k]) + [ResetOf(batch[k])]
  {
    assert batch[..k + 1][..k] == batch[..k] && batch[..k + 1][k] == batch[k];
  }

  /** What one payout did. `batch` was due; `sends` went out; the first `reset` balances of the
      batch were recorded and reset. */
  datatype Payout = Payout(batch: seq<Balance>, sends: seq<Transfer>, reset: nat, confirmations: map<string, string>,
                           payments: seq<Payment>, entries: seq<Change>)

  ghost predicate PayoutMeans(p: Payout, order: seq<string>, finished: bool) {
    if !Resolved(p.batch, order) then !finished && p.sends == [] && p.payments == [] && p.entries == []
    else
      && SendsOf(p.sends, Grouped(p.batch, order))
      && Recorded(p.batch, p.reset, order, p.confirmations, p.payments, p.entries)
      && (finished || p.payments != [] ==>
            forall chain | chain in Grouped(p.batch, order) :: Transfer(chain, Grouped(p.batch, order)[chain]) in p.sends)
      && (finished ==>
            && p.reset == |p.batch|
            && p.payments == PaymentsOf(p.batch, order, p.confirmations) && p.entries == ResetsOf(p.batch))
  }

  lemma NothingRecorded(batch: seq<Balance>, order: seq<string>, confirmations: map<string, string>)
    ensures Recorded(batch, 0, order, confirmations, [], [])
  {
    assert batch[..0] == [];
  }

  ghost predicate DistinctAccounts(batch: seq<Balance>) {
    forall i, j :: 0 <= i < j < |batch| ==> batch[i].account != batch[j].account
  }

  lemma {:induction false} LoggedAppend(a: seq<Change>, b: seq<Change>, missed: set<nat>, account: Account)
    requires Below(missed, |a|)
    ensures Logged(a + b, missed, account) == Logged(a, missed, account) + Logged(b, {}, account)
  {
    if b == [] {
      assert a + b == a;
    } else {
      var front, last := b[..|b| - 1], b[|b| - 1];
      LoggedAppend(a, front, missed, account);
      assert a + b == (a + front) + [last] && b == front + [last];
      LoggedLast(a + front, missed, last, account);
      LoggedLast(front, {}, last, account);
    }
  }

  /** A batch without repeated accounts takes each balance off once, and no other. */
  lemma {:induction false} ResetsTakeAmounts(batch: seq<Balance>, account: Account)
    requires DistinctAccounts(batch)
    ensures forall b | b in batch && b.account == account :: Logged(ResetsOf(batch), {}, account) == -b.amount
    ensures (forall b | b in batch :: b.account != account) ==> Logged(ResetsOf(batch), {}, account) == 0.0
  {
    if batch != [] {
      var front, last := batch[..|batch| - 1], batch[|batch| - 1];
      assert batch == front + [last];
      ResetsTakeAmounts(front, account);
      LoggedLast(ResetsOf(front), {}, ResetOf(last), account);
    }
  }

  lemma {:induction false} ResetTotals(batch: seq<Balance>, order: seq<string>, confirmations: map<string, string>)
    ensures Credited(ResetsOf(batch)) == 0.0
    ensures Reset(ResetsOf(batch)) == PaidOut(PaymentsOf(batch, order, confirmations))
  {
    if batch != [] {
      var front, last := batch[..|batch| - 1], batch[|batch| - 1];
      ResetTotals(front, order, confirmations);
      TotalsLast(ResetsOf(front), ResetOf(last));
      var p := PaymentsOf(front, order, confirmations);
      assert (p + [PaymentOf(last, order, confirmations)])[..|p|] == p;
    }
  }

  // ---- Claims on an address -----------------------------------------------------------------

  function SentTo(batch: seq<Balance>, order: seq<string>, chain: string, address: string): real
    requires Resolved(batch, order)
  {
    var amounts := ChainAmounts(Grouped(batch, order), chain);
    if address in amounts then amounts[address] else 0.0
  }

  predicate PaysTo(b: Balance, order: seq<string>, chain: string, address: string) {
    b.account.chain == chain && PayAddress(b.account, order) == Ok(address)
  }

  /** What the balances of a batch claim for an address. */
  function ClaimTotal(batch: seq<Balance>, order: seq<string>, chain: string, address: string): real {
    if batch == [] then 0.0
    else
      var last := batch[|batch| - 1];
      ClaimTotal(batch[..|batch| - 1], order, chain, address) + if PaysTo(last, order, chain, address) then last.amount else 0.0
  }

  function Claims(batch: seq<Balance>, order: seq<string>, chain: string, address: string): nat {
    if batch == [] then 0
    else Claims(batch[..|batch| - 1], order, chain, address)
         + if PaysTo(batch[|batch| - 1], order, chain, address) then 1 else 0
  }

  lemma {:induction false} NoClaims(batch: seq<Balance>, order: seq<string>, chain: string, address: string)
    requires Resolved(batch, order) && Claims(batch, order, chain, address) == 0
    ensures SentTo(batch, order, chain, address) == 0.0 && ClaimTotal(batch, order, chain, address) == 0.0
  {
    if batch != [] {
      var front, last := batch[..|batch| - 1], batch[|batch| - 1];
      assert batch == front + [last];
      ResolvedPrefix(batch, order, |batch| - 1);
      NoClaims(front, order, chain, address);
    }
  }

  /** The last claim decides what an address is sent. */
  lemma SentToLast(batch: seq<Balance>, order: seq<string>, chain: string, address: string)
    requires batch != [] && Resolved(batch, order) && Resolved(batch[..|batch| - 1], order)
    ensures SentTo(batch, order, chain, address) ==
      if PaysTo(batch[|batch| - 1], order, chain, address) then batch[|batch| - 1].amount
      else SentTo(batch[..|batch| - 1], order, chain, address)
  {
    var last := batch[|batch| - 1];
    assert last in batch;
  }

  /** Every claim but the last on an address is zero. */
  ghost predicate EarlierClaimsZero(batch: seq<Balance>, order: seq<string>, chain: string, address: string) {
    forall i, j :: 0 <= i < j < |batch| && PaysTo(batch[i], order, chain, address) && PaysTo(batch[j], order, chain, address)
      ==> batch[i].amount == 0.0
  }

  ghost predicate AllClaimsZero(batch: seq<Balance>, order: seq<string>, chain: string, address: string) {
    forall i :: 0 <= i < |batch| && PaysTo(batch[i], order, chain, address) ==> batch[i].amount == 0.0
  }

  ghost predicate NoneNegative(batch: seq<Balance>) {
    forall b | b in batch :: b.amount >= 0.0
  }

  lemma {:induction false} ZeroTotal(batch: seq<Balance>, order: seq<string>, chain: string, address: string)
    requires NoneNegative(batch)
    ensures ClaimTotal(batch, order, chain, address) >= 0.0
    ensures ClaimTotal(batch, order, chain, address) == 0.0 <==> AllClaimsZero(batch, order, chain, address)
  {
    if batch != [] {
      var front, last := batch[..|batch| - 1], batch[|batch| - 1];
      assert batch == front + [last];
      ZeroTotal(front, order, chain, address);
      assert forall i :: 0 <= i < |front| ==> front[i] == batch[i];
    }
  }

  /** With at most one claim an address is sent exactly what is claimed for it. */
  lemma {:induction false} OneClaimIsSent(batch: seq<Balance>, order: seq<string>, chain: string, address: string)
    requires Resolved(batch, order) && Claims(batch, order, chain, address) <= 1
    ensures SentTo(batch, order, chain, address) == ClaimTotal(batch, order, chain, address)
  {
    if batch != [] {
      var front := batch[..|batch| - 1];
      ResolvedPrefix(batch, order, |batch| - 1);
      SentToLast(batch, order, chain, address);
      if PaysTo(batch[|batch| - 1], order, chain, address) {
        NoClaims(front, order, chain, address);
      } else {
        OneClaimIsSent(front, order, chain, address);
      }
    }
  }

  /** Without negative balances an address is never sent more than is claimed for it, and it is
      sent all of it exactly when every claim but the last is zero. */
  lemma {:induction false} SentAgainstClaims(batch: seq<Balance>, order: seq<string>, chain: string, address: string)
    requires Resolved(batch, order) && NoneNegative(batch)
    ensures SentTo(batch, order, chain, address) <= ClaimTotal(batch, order, chain, address)
    ensures SentTo(batch, order, chain, address) == ClaimTotal(batch, order, chain, address)
      <==> EarlierClaimsZero(batch, order, chain, address)
  {
    if batch != [] {
      var front, last := batch[..|batch| - 1], batch[|batch| - 1];
      assert batch == front + [last];
      assert forall i :: 0 <= i < |front| ==> front[i] == batch[i];
      ResolvedPrefix(batch, order, |batch| - 1);
      SentToLast(batch, order, chain, address);
      SentAgainstClaims(front, order, chain, address);
      ZeroTotal(front, order, chain, address);
      EarlierNext(batch, order, chain, address);
    }
  }

  lemma EarlierNext(batch: seq<Balance>, order: seq<string>, chain: string, address: string)
    requires batch != []
    ensures EarlierClaimsZero(batch, order, chain, address) <==>
      if PaysTo(batch[|batch| - 1], order, chain, address) then AllClaimsZero(batch[..|batch| - 1], order, chain, address)
      else EarlierClaimsZero(batch[..|batch| - 1], order, chain, address)
  {
    var front, n := batch[..|batch| - 1], |batch| - 1;
    assert forall i :: 0 <= i < n ==> front[i] == batch[i];
    if PaysTo(batch[n], order, chain, address) {
      if EarlierClaimsZero(batch, order, chain, address) {
        forall i | 0 <= i < n && PaysTo(front[i], order, chain, address) ensures front[i].amount == 0.0 {
          assert batch[i].amount == 0.0;
        }
      }
    }
  }

  // ---- Sends and records by address ----------------------------------------------------------------

  /** What transfers sent to an address. */
  function SentBy(transfers: seq<Transfer>, chain: string, address: string): real {
    if transfers == [] then 0.0
    else
      var last := transfers[|transfers| - 1];
      SentBy(transfers[..|transfers| - 1], chain, address)
      + if last.chain == chain && address in last.amounts then last.amounts[address] else 0.0
  }

  /** What payment records say an address got. */
  function PaidTo(payments: seq<Payment>, chain: string, address: string): real {
    if payments == [] then 0.0
    else
      var last := payments[|payments| - 1];
      PaidTo(payments[..|payments| - 1], chain, address) + if last.chain == chain && last.address == address then last.amount else 0.0
  }

  lemma {:induction false} SentByAppend(a: seq<Transfer>, b: seq<Transfer>, chain: string, address: string)
    ensures SentBy(a + b, chain, address) == SentBy(a, chain, address) + SentBy(b, chain, address)
  {
    if b == [] {
      assert a + b == a;
    } else {
      SentByAppend(a, b[..|b| - 1], chain, address);
      assert (a + b)[..|a + b| - 1] == a + b[..|b| - 1];
    }
  }

  lemma {:induction false} PaidToAppend(a: seq<Payment>, b: seq<Payment>, chain: string, address: string)
    ensures PaidTo(a + b, chain, address) == PaidTo(a, chain, address) + PaidTo(b, chain, address)
  {
    if b == [] {
      assert a + b == a;
    } else {
      PaidToAppend(a, b[..|b| - 1], chain, address);
      assert (a + b)[..|a + b| - 1] == a + b[..|b| - 1];
    }
  }

  lemma {:induction false} ClaimTotalAppend(a: seq<Balance>, b: seq<Balance>, order: seq<string>, chain: string, address: string)
    ensures ClaimTotal(a + b, order, chain, address) == ClaimTotal(a, order, chain, address) + ClaimTotal(b, order, chain, address)
  {
    if b == [] {
      assert a + b == a;
    } else {
      ClaimTotalAppend(a, b[..|b| - 1], order, chain, address);
      assert (a + b)[..|a + b| - 1] == a + b[..|b| - 1];
    }
  }

  lemma {:induction false} RecordsAreClaims(batch: seq<Balance>, order: seq<string>, confirmations: map<string, string>,
                                            chain: string, address: string)
    requires Resolved(batch, order)
    ensures PaidTo(PaymentsOf(batch, order, confirmations), chain, address) == ClaimTotal(batch, order, chain, address)
    ensures |PaymentsOf(batch, order, confirmations)| == |batch|
  {
    if batch != [] {
      var front, last := batch[..|batch| - 1], batch[|batch| - 1];
      assert batch == front + [last] && last in batch;
      ResolvedPrefix(batch, order, |batch| - 1);
      RecordsAreClaims(front, order, confirmations, chain, address);
      var p := PaymentsOf(front, order, confirmations);
      assert (p + [PaymentOf(last, order, confirmations)])[..|p|] == p;
    }
  }

  function SentChains(sends: seq<Transfer>): set<string> {
    set s | s in sends :: s.chain
  }

  lemma {:induction false} SendsByChain(sends: seq<Transfer>, grouped: map<string, Amounts>, chain: string, address: string)
    requires SendsOf(sends, grouped)
    ensures SentBy(sends, chain, address) ==
      if chain in SentChains(sends) && address in ChainAmounts(grouped, chain) then ChainAmounts(grouped, chain)[address] else 0.0
  {
    if sends != [] {
      var front, last := sends[..|sends| - 1], sends[|sends| - 1];
      assert sends == front + [last];
      SendsByChain(front, grouped, chain, address);
      assert forall s :: s in sends <==> s in front || s == last;
      assert last in sends;
      assert SentChains(sends) == SentChains(front) + {last.chain};
      if last.chain == chain {
        assert chain !in SentChains(front);
      }
    }
  }

  // ---- What a payout leaves open -------------------------------------------------------------------

  /** The balances of a batch on some chains. */
  function OnChains(batch: seq<Balance>, chains: set<string>): seq<Balance> {
    if batch == [] then []
    else OnChains(batch[..|batch| - 1], chains) + if batch[|batch| - 1].account.chain in chains then [batch[|batch| - 1]] else []
  }

  /** The balance whose claim on an address stands so far. */
  function Holder(batch: seq<Balance>, order: seq<string>, chain: string, address: string): (b: Balance)
    requires Claims(batch, order, chain, address) > 0
    ensures PaysTo(b, order, chain, address) && b in batch
  {
    if PaysTo(batch[|batch| - 1], order, chain, address) then batch[|batch| - 1]
    else Holder(batch[..|batch| - 1], order, chain, address)
  }

  /** The balances whose claim was replaced by a later one on the same address. */
  function Shadowed(batch: seq<Balance>, order: seq<string>): seq<Balance>
    requires Resolved(batch, order)
  {
    if batch == [] then []
    else
      ResolvedPrefix(batch, order, |batch| - 1);
      var front, last := batch[..|batch| - 1], batch[|batch| - 1];
      var address := PayAddress(last.account, order).value;
      Shadowed(front, order)
      + if Claims(front, order, last.account.chain, address) > 0 then [Holder(front, order, last.account.chain, address)] else []
  }

  lemma {:induction false} OnChainsTotal(batch: seq<Balance>, chains: set<string>, order: seq<string>, chain: string, address: string)
    ensures ClaimTotal(OnChains(batch, chains), order, chain, address)
            == if chain in chains then ClaimTotal(batch, order, chain, address) else 0.0
  {
    if batch != [] {
      var front, last := batch[..|batch| - 1], batch[|batch| - 1];
      OnChainsTotal(front, chains, order, chain, address);
      var kept := OnChains(front, chains);
      assert (kept + [last])[..|kept|] == kept && kept + [] == kept;
    }
  }

  lemma {:induction false} OnChainsEmpty(batch: seq<Balance>, chains: set<string>)
    ensures OnChains(batch, chains) == [] <==> forall b | b in batch :: b.account.chain !in chains
  {
    if batch != [] {
      var front, last := batch[..|batch| - 1], batch[|batch| - 1];
      assert batch == front + [last];
      OnChainsEmpty(front, chains);
    }
  }

  lemma {:induction false} HolderIsSent(batch: seq<Balance>, order: seq<string>, chain: string, address: string)
    requires Resolved(batch, order) && Claims(batch, order, chain, address) > 0
    ensures Holder(batch, order, chain, address).amount == SentTo(batch, order, chain, address)
  {
    ResolvedPrefix(batch, order, |batch| - 1);
    SentToLast(batch, order, chain, address);
    if !PaysTo(batch[|batch| - 1], order, chain, address) {
      HolderIsSent(batch[..|batch| - 1], order, chain, address);
    }
  }

  /** What is claimed for an address is what it is sent and what was replaced. */
  lemma {:induction false} ClaimsAreSentOrShadowed(batch: seq<Balance>, order: seq<string>, chain: string, address: string)
    requires Resolved(batch, order)
    ensures SentTo(batch, order, chain, address) + ClaimTotal(Shadowed(batch, order), order, chain, address)
            == ClaimTotal(batch, order, chain, address)
  {
    if batch != [] {
      ResolvedPrefix(batch, order, |batch| - 1);
      var front, last := batch[..|batch| - 1], batch[|batch| - 1];
      var target := PayAddress(last.account, order).value;
      ClaimsAreSentOrShadowed(front, order, chain, address);
      SentToLast(batch, order, chain, address);
      var before := Shadowed(front, order);
      if Claims(front, order, last.account.chain, target) > 0 {
        var h := Holder(front, order, last.account.chain, target);
        assert (before + [h])[..|before|] == before;
        HolderIsSent(front, order, last.account.chain, target);
      } else {
        assert before + [] == before;
        NoClaims(front, order, last.account.chain, target);
      }
    }
  }

  /** The balances of a payout that were sent and have no payment record. */
  function Unrecorded(p: Payout): seq<Balance> {
    if |p.payments| <= |p.batch| then OnChains(p.batch[|p.payments|..], SentChains(p.sends)) else []
  }

  /** The balances of a payout that were recorded and whose reset was not logged. */
  function Unreset(p: Payout): seq<Balance> {
    if |p.entries| <= |p.payments| <= |p.batch| then p.batch[|p.entries|..|p.payments|] else []
  }

  /** The balances of a payout that were recorded and replaced in what was sent. */
  ghost function Replaced(p: Payout, order: seq<string>): seq<Balance> {
    if Resolved(p.batch, order) then OnChains(Shadowed(p.batch, order), SentChains(p.sends)) else []
  }

  lemma RecordedPrefix(p: Payout, order: seq<string>)
    requires Resolved(p.batch, order) && Recorded(p.batch, p.reset, order, p.confirmations, p.payments, p.entries)
    ensures |p.payments| <= |p.batch| && p.payments == PaymentsOf(p.batch[..|p.payments|], order, p.confirmations)
  {
    ResolvedPrefix(p.batch, order, p.reset);
    RecordsAreClaims(p.batch[..p.reset], order, p.confirmations, "", "");
    if p.reset < |p.batch| {
      ResolvedPrefix(p.batch, order, p.reset + 1);
      RecordsAreClaims(p.batch[..p.reset + 1], order, p.confirmations, "", "");
    }
  }

  lemma AllChainsSent(p: Payout, order: seq<string>)
    requires Resolved(p.batch, order)
    requires forall chain | chain in Grouped(p.batch, order) :: Transfer(chain, Grouped(p.batch, order)[chain]) in p.sends
    ensures forall b | b in p.batch :: b.account.chain in SentChains(p.sends)
  {
    GroupedCovers(p.batch, order);
    forall b | b in p.batch ensures b.account.chain in SentChains(p.sends) {
      assert b.account.chain in Grouped(p.batch, order);
    }
  }

  lemma {:induction false} UnclaimedChain(batch: seq<Balance>, order: seq<string>, chain: string, address: string)
    requires forall b | b in batch :: b.account.chain != chain
    ensures ClaimTotal(batch, order, chain, address) == 0.0
  {
    if batch != [] {
      var front, last := batch[..|batch| - 1], batch[|batch| - 1];
      assert batch == front + [last];
      UnclaimedChain(front, order, chain, address);
    }
  }

  /** Address by address, finished or not: what a payout sent and what it replaced is what it
      recorded and what it left unrecorded. */
  lemma PayoutBalance(p: Payout, order: seq<string>, finished: bool, chain: string, address: string)
    requires PayoutMeans(p, order, finished)
    ensures SentBy(p.sends, chain, address) + ClaimTotal(Replaced(p, order), order, chain, address)
            == PaidTo(p.payments, chain, address) + ClaimTotal(Unrecorded(p), order, chain, address)
  {
    if Resolved(p.batch, order) {
      var n := |p.payments|;
      RecordedPrefix(p, order);
      var done, left, sent := p.batch[..n], p.batch[n..], SentChains(p.sends);
      assert p.batch == done + left;
      ResolvedPrefix(p.batch, order, n);
      SendsByChain(p.sends, Grouped(p.batch, order), chain, address);
      OnChainsTotal(Shadowed(p.batch, order), sent, order, chain, address);
      OnChainsTotal(left, sent, order, chain, address);
      RecordsAreClaims(done, order, p.confirmations, chain, address);
      ClaimTotalAppend(done, left, order, chain, address);
      ClaimsAreSentOrShadowed(p.batch, order, chain, address);
      if chain !in sent && n > 0 {
        AllChainsSent(p, order);
        UnclaimedChain(done, order, chain, address);
      }
    } else {
      OnChainsEmpty(p.batch, {});
      assert SentChains(p.sends) == {} && p.batch[0..] == p.batch;
    }
  }

  /** A payout leaves something sent and unrecorded exactly when it has sent and its records do not
      reach the end of the batch. */
  lemma UnrecordedExactly(p: Payout, order: seq<string>, finished: bool)
    requires PayoutMeans(p, order, finished)
    ensures Unrecorded(p) != [] <==> p.sends != [] && |p.payments| < |p.batch|
    ensures finished ==> Unrecorded(p) == []
  {
    var sent := SentChains(p.sends);
    if Resolved(p.batch, order) {
      RecordedPrefix(p, order);
      var left := p.batch[|p.payments|..];
      OnChainsEmpty(left, sent);
      if p.sends != [] && left != [] {
        if p.payments != [] {
          AllChainsSent(p, order);
          assert left[0] in p.batch && left[0] in left;
        } else {
          GroupedCovers(p.batch, order);
          assert p.sends[0] in p.sends && p.sends[0].chain in Grouped(p.batch, order);
          var b :| b in p.batch && b.account.chain == p.sends[0].chain;
          assert b in left;
        }
      }
      if finished {
        RecordsAreClaims(p.batch, order, p.confirmations, "", "");
      }
    } else {
      assert sent == {};
      OnChainsEmpty(p.batch[0..], sent);
    }
  }

  // ---- Who is paid ------------------------------------------------------------------------------------

  /** A balance is paid to its owner, with its amount. */
  ghost predicate PaysOwner(b: Balance, order: seq<string>, chain: string, address: string, amount: real) {
    b.account.chain == chain && b.amount == amount && OwnedBy(b.account, order, address)
  }

  /** Every amount sent is a balance of the batch and goes to that balance's owner; and the payment
      records are the first balances of the batch, each under its owner's address and with the
      confirmation of its chain. */
  ghost predicate PaysOwners(p: Payout, order: seq<string>) {
    && (forall s, address | s in p.sends && address in s.amounts ::
          exists b :: b in p.batch && PaysOwner(b, order, s.chain, address, s.amounts[address]))
    && |p.payments| <= |p.batch|
    && (forall i | 0 <= i < |p.payments| ::
          && p.payments[i].pool == p.batch[i].account.pool
          && (p.payments[i].chain in p.confirmations ==> p.payments[i].confirmation == p.confirmations[p.payments[i].chain])
          && PaysOwner(p.batch[i], order, p.payments[i].chain, p.payments[i].address, p.payments[i].amount))
  }

  lemma {:induction false} GroupedPayOwners(batch: seq<Balance>, order: seq<string>, chain: string, address: string)
    requires Resolved(batch, order) && address in ChainAmounts(Grouped(batch, order), chain)
    ensures exists b :: b in batch && PaysOwner(b, order, chain, address, ChainAmounts(Grouped(batch, order), chain)[address])
  {
    var front, last := batch[..|batch| - 1], batch[|batch| - 1];
    ResolvedPrefix(batch, order, |batch| - 1);
    AddressIsOwned(last.account, order);
    assert last in batch;
    if PaysTo(last, order, chain, address) {
      assert PaysOwner(last, order, chain, address, last.amount);
    } else {
      GroupedPayOwners(front, order, chain, address);
      var b :| b in front && PaysOwner(b, order, chain, address, ChainAmounts(Grouped(front, order), chain)[address]);
      assert b in batch;
    }
  }

  /** However a payout ends, what it sent and what it recorded goes to the owners of the balances. */
  lemma PayoutPaysOwners(p: Payout, order: seq<string>, finished: bool)
    requires PayoutMeans(p, order, finished)
    ensures PaysOwners(p, order)
  {
    if Resolved(p.batch, order) {
      forall s, address | s in p.sends && address in s.amounts
        ensures exists b :: b in p.batch && PaysOwner(b, order, s.chain, address, s.amounts[address])
      {
        GroupedPayOwners(p.batch, order, s.chain, address);
      }
      RecordedPrefix(p, order);
      var done := p.batch[..|p.payments|];
      forall i | 0 <= i < |p.payments|
        ensures p.payments[i].pool == p.batch[i].account.pool
        ensures p.payments[i].chain in p.confirmations ==> p.payments[i].confirmation == p.confirmations[p.payments[i].chain]
        ensures PaysOwner(p.batch[i], order, p.payments[i].chain, p.payments[i].address, p.payments[i].amount)
      {
        RecordsAt(done, order, p.confirmations, i);
        AddressIsOwned(p.batch[i].account, order);
        assert p.batch[i] in p.batch;
      }
    }
  }

  // ---- A payout that finished ------------------------------------------------------------------------

  /** What an address was sent by a payout that finished is what the payments record for it:
      always with one claim; without negative balances, exactly when every claim but the last is
      zero; and otherwise exactly when the replaced claims add up to nothing. */
  lemma SentIsRecorded(p: Payout, order: seq<string>, chain: string, address: string)
    requires PayoutMeans(p, order, true)
    ensures Claims(p.batch, order, chain, address) <= 1 ==> SentBy(p.sends, chain, address) == PaidTo(p.payments, chain, address)
    ensures SentBy(p.sends, chain, address) == PaidTo(p.payments, chain, address)
      <==> ClaimTotal(Shadowed(p.batch, order), order, chain, address) == 0.0
    ensures NoneNegative(p.batch) ==>
      && SentBy(p.sends, chain, address) <= PaidTo(p.payments, chain, address)
      && (SentBy(p.sends, chain, address) == PaidTo(p.payments, chain, address) <==> EarlierClaimsZero(p.batch, order, chain, address))
  {
    SendsByChain(p.sends, Grouped(p.batch, order), chain, address);
    RecordsAreClaims(p.batch, order, p.confirmations, chain, address);
    ClaimsAreSentOrShadowed(p.batch, order, chain, address);
    AllChainsSent(p, order);
    if chain !in SentChains(p.sends) {
      Unsent(p, order, chain, address);
    }
    if Claims(p.batch, order, chain, address) <= 1 {
      OneClaimIsSent(p.batch, order, chain, address);
    }
    if NoneNegative(p.batch) {
      SentAgainstClaims(p.batch, order, chain, address);
    }
  }

  lemma Unsent(p: Payout, order: seq<string>, chain: string, address: string)
    requires Resolved(p.batch, order) && forall b | b in p.batch :: b.account.chain in SentChains(p.sends)
    requires chain !in SentChains(p.sends)
    ensures SentTo(p.batch, order, chain, address) == 0.0
  {
    GroupedCovers(p.batch, order);
    assert chain !in Grouped(p.batch, order);
  }

  /** No two balances of a batch are paid to one address. */
  ghost predicate NoSharedAddress(batch: seq<Balance>, order: seq<string>) {
    forall i, j :: 0 <= i < j < |batch| ==>
      !(batch[i].account.chain == batch[j].account.chain && PayAddress(batch[i].account, order) == PayAddress(batch[j].account, order))
  }

  lemma {:induction false} ClaimOfEach(batch: seq<Balance>, order: seq<string>, i: nat)
    requires Resolved(batch, order) && NoSharedAddress(batch, order) && i < |batch|
    ensures ClaimTotal(batch, order, batch[i].account.chain, PayAddress(batch[i].account, order).value) == batch[i].amount
    ensures Claims(batch, order, batch[i].account.chain, PayAddress(batch[i].account, order).value) == 1
  {
    var front, n := batch[..|batch| - 1], |batch| - 1;
    ResolvedPrefix(batch, order, n);
    assert forall k :: 0 <= k < n ==> front[k] == batch[k];
    var chain, address := batch[i].account.chain, PayAddress(batch[i].account, order).value;
    assert batch[i] in batch;
    if i < n {
      ClaimOfEach(front, order, i);
    } else {
      OtherClaims(front, order, chain, address);
    }
  }

  lemma {:induction false} OtherClaims(batch: seq<Balance>, order: seq<string>, chain: string, address: string)
    requires forall k :: 0 <= k < |batch| ==> !PaysTo(batch[k], order, chain, address)
    ensures ClaimTotal(batch, order, chain, address) == 0.0 && Claims(batch, order, chain, address) == 0
  {
    if batch != [] {
      OtherClaims(batch[..|batch| - 1], order, chain, address);
    }
  }

  /** Without shared addresses no claim is replaced. */
  lemma {:induction false} NothingShadowed(batch: seq<Balance>, order: seq<string>)
    requires Resolved(batch, order) && NoSharedAddress(batch, order)
    ensures Shadowed(batch, order) == []
  {
    if batch != [] {
      var front, last := batch[..|batch| - 1], batch[|batch| - 1];
      ResolvedPrefix(batch, order, |batch| - 1);
      assert forall k :: 0 <= k < |front| ==> front[k] == batch[k];
      NothingShadowed(front, order);
      assert last in batch;
      OtherClaims(front, order, last.account.chain, PayAddress(last.account, order).value);
    }
  }

  lemma {:induction false} RecordCounts(batch: seq<Balance>, order: seq<string>, confirmations: map<string, string>)
    ensures |PaymentsOf(batch, order, confirmations)| == |ResetsOf(batch)| == |batch|
  {
    if batch != [] {
      RecordCounts(batch[..|batch| - 1], order, confirmations);
    }
  }

  lemma {:induction false} RecordsAt(batch: seq<Balance>, order: seq<string>, confirmations: map<string, string>, i: nat)
    requires i < |batch|
    ensures |PaymentsOf(batch, order, confirmations)| == |ResetsOf(batch)| == |batch|
    ensures PaymentsOf(batch, order, confirmations)[i] == PaymentOf(batch[i], order, confirmations)
    ensures ResetsOf(batch)[i] == ResetOf(batch[i])
  {
    RecordCounts(batch, order, confirmations);
    RecordCounts(batch[..|batch| - 1], order, confirmations);
    if i < |batch| - 1 {
      RecordsAt(batch[..|batch| - 1], order, confirmations, i);
    }
  }

  /** When a payout finished and no address is shared, each balance of the batch was sent, recorded
      and taken off, all three with the same amount. */
  lemma PayoutAgrees(p: Payout, order: seq<string>, i: nat)
    requires PayoutMeans(p, order, true) && NoSharedAddress(p.batch, order) && i < |p.batch|
    ensures |p.payments| == |p.entries| == |p.batch|
    ensures var b := p.batch[i];
      var address := PayAddress(b.account, order);
      && address.Ok?
      && SentBy(p.sends, b.account.chain, address.value) == p.payments[i].amount == b.amount
      && p.payments[i].chain == b.account.chain && p.payments[i].address == address.value
      && p.entries[i] == Change(b.account, -b.amount, Paid)
  {
    var b := p.batch[i];
    assert b in p.batch;
    RecordsAt(p.batch, order, p.confirmations, i);
    ClaimOfEach(p.batch, order, i);
    SentIsRecorded(p, order, b.account.chain, PayAddress(b.account, order).value);
    RecordsAreClaims(p.batch, order, p.confirmations, b.account.chain, PayAddress(b.account, order).value);
  }

  /** Two miners of one chain that share its part of their addresses: the chain is told to send 2,
      and the payments record 3. */
  lemma SharedAddressShort() returns (p: Payout)
    ensures PayoutMeans(p, ["a", "b"], true)
    ensures p.batch == [Balance(Account("pool", "a", "x-y"), 1.0), Balance(Account("pool", "a", "x-z"), 2.0)]
    ensures SentBy(p.sends, "a", "x") == 2.0 && PaidTo(p.payments, "a", "x") == 3.0
  {
    var order, first, second := ["a", "b"], Balance(Account("pool", "a", "x-y"), 1.0), Balance(Account("pool", "a", "x-z"), 2.0);
    var batch := [first, second];
    FirstPart("x-y");
    FirstPart("x-z");
    assert PayAddress(first.account, order) == PayAddress(second.account, order) == Ok("x");
    assert batch[..1] == [first] && [first][..0] == [];
    assert Grouped([first], order) == map["a" := map["x" := 1.0]];
    var g := Grouped([first], order);
    assert ChainAmounts(g, "a")["x" := 2.0] == map["x" := 2.0];
    assert batch[..|batch| - 1] == [first] && batch[|batch| - 1] == second;
    assert Grouped(batch, order) == g["a" := ChainAmounts(g, "a")["x" := 2.0]];
    assert Grouped(batch, order) == map["a" := map["x" := 2.0]];
    var sends := [Transfer("a", map["x" := 2.0])];
    assert sends[..0] == [];
    p := Payout(batch, sends, 2, map["a" := "t"], PaymentsOf(batch, order, map["a" := "t"]), ResetsOf(batch));
    assert batch[..2] == batch;
    RecordsAreClaims(batch, order, p.confirmations, "a", "x");
    assert ClaimTotal([first], order, "a", "x") == 1.0;
  }

  lemma FirstPart(address: string)
    requires |address| == 3 && address[0] != '-' && address[1] == '-' && address[2] != '-'
    ensures Split(address, '-') == [[address[0]], [address[2]]]
  {
    var last, rest := address[2..], address[1..];
    assert last[1..] == "" && rest[1..] == last && address[1..] == rest;
    assert [last[0]] + "" == [last[0]] && [""][1..] == [];
    assert Split(last, '-') == [[address[2]]] + [];
    assert Split(rest, '-') == [""] + [[address[2]]];
    assert [address[0]] + "" == [address[0]] && ([""] + [[address[2]]])[1..] == [[address[2]]];
  }
}
