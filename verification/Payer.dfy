/** payouts/payer.go: sends due balances on chain, records the payments, resets the balances. */
module Payer {
  import opened Outcomes
  import opened Bytes
  import opened Ledger
  import opened Rewards

  /** One `sendmany` that a node accepted. */
  datatype Transfer = Transfer(chain: string, amounts: map<string, real>)

  /** The nodes' wallets: what they were told to send, and did, and the transaction ids they gave for it. */
  class Wallets {
    const calls: Calls
    const chains: set<string>
    var transfers: seq<Transfer>
    var receipts: seq<string>

    constructor (calls: Calls, chains: set<string>)
      ensures this.calls == calls && this.chains == chains && transfers == [] && receipts == []
    {
      this.calls, this.chains, transfers, receipts := calls, chains, [], [];
    }

    method SendMany(chain: string, amounts: map<string, real>) returns (r: Outcome<string>)
      modifies this, calls
      ensures calls.failed == old(calls.failed) + if r.Ok? then 0 else 1
      ensures transfers == if r.Ok? then old(transfers) + [Transfer(chain, amounts)] else old(transfers)
      ensures receipts == if r.Ok? then old(receipts) + [r.value] else old(receipts)
    {
      var works := calls.Attempt();
      if !works {
        return Err;
      }
      transfers := transfers + [Transfer(chain, amounts)];
      var transactionID: string := *;
      receipts := receipts + [transactionID];
      return Ok(transactionID);
    }
  }

  // ---- Addresses -------------------------------------------------------------------------

  /** `strings.Split`: one part more than there are separators. */
  function Split(s: string, separator: char): (parts: seq<string>)
    ensures |parts| >= 1
  {
    if s == "" then [""]
    else
      var rest := Split(s[1..], separator);
      if s[0] == separator then [""] + rest else [[s[0]] + rest[0]] + rest[1..]
  }

  /** The address a balance is paid to: a pool address has one part; a miner's has one part per
      chain, in the configured order. */
  function PayAddress(account: Account, order: seq<string>): Outcome<string> {
    if |order| <= 1 then Ok(account.address)
    else
      var addresses := Split(account.address, '-');
      if |addresses| == 1 then Ok(addresses[0])
      else
        var i := FirstIndex(order, account.chain);
        if i == |order| then Err else if i >= |addresses| then Panic else Ok(addresses[i])
  }

  function FirstIndex(order: seq<string>, chain: string): (i: nat)
    ensures i <= |order|
    ensures i < |order| ==> order[i] == chain
    ensures chain !in order[..i]
  {
    if order == [] then 0
    else if order[0] == chain then 0
    else
      var j := FirstIndex(order[1..], chain);
      assert order[..1 + j] == [order[0]] + order[1..][..j];
      1 + j
  }

  lemma {:induction false} FirstIndexIs(order: seq<string>, chain: string, i: nat)
    requires i <= |order| && chain !in order[..i] && (i < |order| ==> order[i] == chain)
    ensures FirstIndex(order, chain) == i
  {
    if i > 0 {
      assert order[..i][0] == order[0] && order[1..][..i - 1] == order[..i][1..];
      FirstIndexIs(order[1..], chain, i - 1);
    }
  }

  // ---- Whose address that is --------------------------------------------------------------------

  /** The parts with a separator between each two. */
  function Join(parts: seq<string>): string {
    if parts == [] then "" else if |parts| == 1 then parts[0] else parts[0] + "-" + Join(parts[1..])
  }

  /** A miner's address is made of these parts. */
  ghost predicate MadeOf(address: string, parts: seq<string>) {
    parts != [] && (forall part | part in parts :: '-' !in part) && Join(parts) == address
  }

  lemma {:induction false} SplitOne(s: string)
    requires '-' !in s
    ensures Split(s, '-') == [s]
  {
    if s != "" {
      assert s[0] in s;
      SplitOne(s[1..]);
      assert [s[0]] + s[1..] == s && [s[1..]][1..] == [];
    }
  }

  lemma {:induction false} SplitFirst(s: string, rest: string)
    requires '-' !in s
    ensures Split(s + "-" + rest, '-') == [s] + Split(rest, '-')
  {
    if s == "" {
      assert (s + "-" + rest)[1..] == rest;
    } else {
      assert s[0] in s;
      SplitFirst(s[1..], rest);
      assert (s + "-" + rest)[1..] == s[1..] + "-" + rest;
      assert [s[0]] + s[1..] == s && ([s[1..]] + Split(rest, '-'))[1..] == Split(rest, '-');
    }
  }

  /** Splitting finds the parts, whatever they are. */
  lemma {:induction false} SplitFinds(address: string, parts: seq<string>)
    requires MadeOf(address, parts)
    ensures Split(address, '-') == parts
    decreases |parts|
  {
    assert parts[0] in parts;
    if |parts| == 1 {
      SplitOne(address);
    } else {
      assert forall part | part in parts[1..] :: part in parts;
      SplitFinds(Join(parts[1..]), parts[1..]);
      SplitFirst(parts[0], Join(parts[1..]));
      assert [parts[0]] + parts[1..] == parts;
    }
  }

  /** Every address is made of some parts. */
  lemma {:induction false} SplitIsMadeOf(address: string)
    ensures MadeOf(address, Split(address, '-'))
  {
    if address != "" {
      var rest := Split(address[1..], '-');
      SplitIsMadeOf(address[1..]);
      if address[0] == '-' {
        assert ([""] + rest)[1..] == rest;
        assert address == "" + "-" + address[1..];
      } else {
        assert forall part | part in rest[1..] :: part in rest;
        assert rest[0] in rest;
        var first := [address[0]] + rest[0];
        assert ([first] + rest[1..])[1..] == rest[1..];
        assert address == [address[0]] + address[1..];
        if |rest| > 1 {
          assert [address[0]] + (rest[0] + "-" + Join(rest[1..])) == first + "-" + Join(rest[1..]);
        }
      }
    } else {
      assert Join([""]) == "";
    }
  }

  /** The chain stands at this place of the order first. */
  ghost predicate FirstAt(order: seq<string>, chain: string, k: nat) {
    k < |order| && order[k] == chain && chain !in order[..k]
  }

  /** Where a balance is to be paid. With one chain that is its address; with more, a pool address of
      one part, or the part of a miner's address that stands where its chain stands in the order. */
  ghost predicate OwnedBy(account: Account, order: seq<string>, address: string) {
    if |order| <= 1 then address == account.address
    else exists parts :: MadeOf(account.address, parts) && PartFor(parts, order, account.chain, address)
  }

  ghost predicate PartFor(parts: seq<string>, order: seq<string>, chain: string, address: string) {
    if |parts| == 1 then address == parts[0] else exists k: nat :: FirstAt(order, chain, k) && k < |parts| && address == parts[k]
  }

  /** Each balance is paid to its owner's address for its chain, and an address is missing exactly
      when a miner's chain is not in the order, or its address has no part that far. */
  lemma AddressIsOwned(account: Account, order: seq<string>)
    ensures forall address :: PayAddress(account, order) == Ok(address) <==> OwnedBy(account, order, address)
    ensures forall parts | MadeOf(account.address, parts) && |order| > 1 && |parts| > 1 ::
      && (PayAddress(account, order).Err? <==> account.chain !in order)
      && (PayAddress(account, order).Panic? <==> exists k: nat :: FirstAt(order, account.chain, k) && k >= |parts|)
  {
    if |order| > 1 {
      var parts := Split(account.address, '-');
      SplitIsMadeOf(account.address);
      forall others | MadeOf(account.address, others) ensures others == parts {
        SplitFinds(account.address, others);
      }
      var i := FirstIndex(order, account.chain);
      assert order[..|order|] == order;
      forall k: nat | FirstAt(order, account.chain, k) ensures k == i {
        FirstIndexIs(order, account.chain, k);
      }
      assert i < |order| ==> FirstAt(order, account.chain, i);
      forall address ensures PayAddress(account, order) == Ok(address) <==> PartFor(parts, order, account.chain, address) {
      }
    }
  }

  method FindBalanceAddress(account: Account, order: seq<string>) returns (r: Outcome<string>)
    ensures r == PayAddress(account, order)
    ensures forall address :: r == Ok(address) <==> OwnedBy(account, order, address)
    ensures forall parts | MadeOf(account.address, parts) && |order| > 1 && |parts| > 1 ::
      && (r.Err? <==> account.chain !in order)
      && (r.Panic? <==> exists k: nat :: FirstAt(order, account.chain, k) && k >= |parts|)
  {
    AddressIsOwned(account, order);
    hide OwnedBy, MadeOf, FirstAt;
    var mergedMining := |order| > 1;
    var address := account.address;
    if mergedMining {
      var addresses := Split(account.address, '-');
      if |addresses| == 1 {
        return Ok(addresses[0]);
      }
      var found := false;
      var i := 0;
      while i < |order|
        invariant 0 <= i <= |order| && !found && account.chain !in order[..i]
      {
        if order[i] == account.chain {
          found := true;
          break;
        }
        i := i + 1;
      }
      FirstIndexIs(order, account.chain, i);
      if !found {
        return Err;
      }
      if i >= |addresses| {
        return Panic;
      }
      address := addresses[i];
    }
    return Ok(address);
  }

  // ---- One transaction per chain ------------------------------------------------------------

  ghost predicate Resolved(batch: seq<Balance>, order: seq<string>) {
    forall b | b in batch :: PayAddress(b.account, order).Ok?
  }

  type Amounts = map<string, real>

  function ChainAmounts(grouped: map<string, Amounts>, chain: string): Amounts {
    if chain in grouped then grouped[chain] else map[]
  }

  /** The amounts by chain and on-chain address. A second balance with the same address replaces
      the first. */
  function Grouped(batch: seq<Balance>, order: seq<string>): map<string, Amounts>
    requires Resolved(batch, order)
  {
    if batch == [] then map[]
    else
      var g, last := Grouped(batch[..|batch| - 1], order), batch[|batch| - 1];
      g[last.account.chain := ChainAmounts(g, last.account.chain)[PayAddress(last.account, order).value := last.amount]]
  }

  lemma ResolvedPrefix(batch: seq<Balance>, order: seq<string>, k: nat)
    requires Resolved(batch, order) && k <= |batch|
    ensures Resolved(batch[..k], order)
  {
    forall b | b in batch[..k] ensures b in batch {
    }
  }

  ghost predicate ChainsCovered(batch: seq<Balance>, order: seq<string>)
    requires Resolved(batch, order)
  {
    forall chain :: chain in Grouped(batch, order) <==> exists b :: b in batch && b.account.chain == chain
  }

  lemma {:induction false} GroupedCovers(batch: seq<Balance>, order: seq<string>)
    requires Resolved(batch, order)
    ensures ChainsCovered(batch, order)
  {
    if batch != [] {
      var front, last := batch[..|batch| - 1], batch[|batch| - 1];
      ResolvedPrefix(batch, order, |batch| - 1);
      GroupedCovers(front, order);
      assert batch == front + [last];
      assert forall b :: b in batch <==> b in front || b == last;
    }
  }

  /** The first loop: fills the per-chain maps. */
  method GroupPayments(batch: seq<Balance>, order: seq<string>) returns (r: Outcome<map<string, Amounts>>)
    ensures r.Ok? <==> Resolved(batch, order)
    ensures r.Ok? ==> r.value == Grouped(batch, order)
    ensures r.Panic? ==> exists b :: b in batch && PayAddress(b.account, order).Panic?
  {
    var transactionsGroupedByChain: map<string, Amounts> := map[];
    for i := 0 to |batch|
      invariant Resolved(batch[..i], order) && transactionsGroupedByChain == Grouped(batch[..i], order)
    {
      assert batch[..i + 1][..i] == batch[..i] && batch[..i + 1] == batch[..i] + [batch[i]];
      var chainBalances := ChainAmounts(transactionsGroupedByChain, batch[i].account.chain);
      var address :- FindBalanceAddress(batch[i].account, order);
      chainBalances := chainBalances[address := batch[i].amount];
      transactionsGroupedByChain := transactionsGroupedByChain[batch[i].account.chain := chainBalances];
    }
    assert batch[..|batch|] == batch;
    return Ok(transactionsGroupedByChain);
  }

  /** Each chain sent at most once, with its own amounts. */
  ghost predicate SendsOf(sends: seq<Transfer>, grouped: map<string, Amounts>) {
    && (forall i :: 0 <= i < |sends| ==> sends[i].chain in grouped && sends[i].amounts == grouped[sends[i].chain])
    && (forall i, j :: 0 <= i < j < |sends| ==> sends[i].chain != sends[j].chain)
  }

  /** The sends of a walk over the chains: each in turn, up to the first without a wallet. */
  function SendsAlong(walk: seq<string>, grouped: map<string, Amounts>, chains: set<string>): seq<Transfer> {
    if walk == [] then []
    else
      var sent, last := SendsAlong(walk[..|walk| - 1], grouped, chains), walk[|walk| - 1];
      if |sent| == |walk| - 1 && last in chains && last in grouped then sent + [Transfer(last, grouped[last])] else sent
  }

  /** The keys in some order, each once. */
  ghost predicate IsWalk(walk: seq<string>, keys: set<string>) {
    && (forall i, j :: 0 <= i < j < |walk| ==> walk[i] != walk[j])
    && (forall chain :: chain in walk <==> chain in keys)
  }

  /** A walk that has stopped sends no more. */
  lemma {:induction false} StopsForGood(walk: seq<string>, rest: seq<string>, grouped: map<string, Amounts>, chains: set<string>)
    requires |SendsAlong(walk, grouped, chains)| < |walk|
    ensures SendsAlong(walk + rest, grouped, chains) == SendsAlong(walk, grouped, chains)
    decreases |rest|
  {
    if rest == [] {
      assert walk + rest == walk;
    } else {
      var front := rest[..|rest| - 1];
      StopsForGood(walk, front, grouped, chains);
      assert (walk + rest)[..|walk + rest| - 1] == walk + front;
    }
  }

  lemma WalkExists(keys: set<string>) returns (walk: seq<string>)
    ensures IsWalk(walk, keys)
  {
    walk := [];
    if chain :| chain in keys {
      var rest := WalkExists(keys - {chain});
      walk := [chain] + rest;
      assert forall c :: c in walk <==> c == chain || c in rest;
    }
  }

  /** A walk can be finished from any chains already met. */
  lemma FinishWalk(met: seq<string>, keys: set<string>) returns (rest: seq<string>)
    requires forall i, j :: 0 <= i < j < |met| ==> met[i] != met[j]
    requires forall chain | chain in met :: chain in keys
    ensures IsWalk(met + rest, keys)
  {
    var left := set chain | chain in keys && chain !in met;
    rest := WalkExists(left);
    assert forall c :: c in met + rest <==> c in met || c in rest;
    forall i, j | 0 <= i < |met| && 0 <= j < |rest| ensures met[i] != rest[j] {
      assert rest[j] in rest && met[i] in met;
    }
  }

  /** What the sending loop knows: it has sent to every chain it met. */
  ghost predicate Walked(walk: seq<string>, sends: seq<Transfer>, met: set<string>, grouped: map<string, Amounts>, chains: set<string>) {
    IsWalk(walk, met) && |sends| == |walk| && sends == SendsAlong(walk, grouped, chains)
  }

  /** The transaction ids of some sends, by their chains. */
  function ReceiptsOf(sends: seq<Transfer>, confirmations: map<string, string>): seq<string> {
    if sends == [] then []
    else
      var chain := sends[|sends| - 1].chain;
      ReceiptsOf(sends[..|sends| - 1], confirmations) + [if chain in confirmations then confirmations[chain] else ""]
  }

  lemma {:induction false} OtherReceipt(sends: seq<Transfer>, confirmations: map<string, string>, chain: string, receipt: string)
    requires forall s | s in sends :: s.chain != chain
    ensures ReceiptsOf(sends, confirmations[chain := receipt]) == ReceiptsOf(sends, confirmations)
  {
    if sends != [] {
      var front, last := sends[..|sends| - 1], sends[|sends| - 1];
      assert sends == front + [last] && last in sends;
      OtherReceipt(front, confirmations, chain, receipt);
    }
  }

  lemma ReceiptsLast(sends: seq<Transfer>, s: Transfer, confirmations: map<string, string>, receipt: string)
    requires forall other | other in sends :: other.chain != s.chain
    ensures ReceiptsOf(sends + [s], confirmations[s.chain := receipt]) == ReceiptsOf(sends, confirmations) + [receipt]
  {
    OtherReceipt(sends, confirmations, s.chain, receipt);
    assert (sends + [s])[..|sends|] == sends;
  }

  lemma WalkBegins(grouped: map<string, Amounts>, chains: set<string>)
    ensures Walked([], [], {}, grouped, chains) && ReceiptsOf([], map[]) == [] && SendsOf([], grouped)
  {
  }

  lemma WalkEnds(walk: seq<string>, sends: seq<Transfer>, grouped: map<string, Amounts>, chains: set<string>)
    requires Walked(walk, sends, grouped.Keys, grouped, chains)
    ensures IsWalk(walk, grouped.Keys) && sends == SendsAlong(walk, grouped, chains)
  {
  }

  lemma SendsOn(sends: seq<Transfer>, grouped: map<string, Amounts>, chain: string)
    requires SendsOf(sends, grouped) && chain in grouped && forall s | s in sends :: s.chain != chain
    ensures SendsOf(sends + [Transfer(chain, grouped[chain])], grouped)
  {
  }

  lemma WalkOn(walk: seq<string>, sends: seq<Transfer>, met: set<string>, grouped: map<string, Amounts>, chains: set<string>, chain: string)
    requires Walked(walk, sends, met, grouped, chains) && chain !in met && chain in grouped && chain in chains
    ensures Walked(walk + [chain], sends + [Transfer(chain, grouped[chain])], met + {chain}, grouped, chains)
  {
    assert (walk + [chain])[..|walk|] == walk;
    assert forall c :: c in walk + [chain] <==> c in walk || c == chain;
  }

  /** At a chain without a wallet the walk stops, whatever it had still to meet. */
  lemma WalkStops(walk: seq<string>, sends: seq<Transfer>, met: set<string>, grouped: map<string, Amounts>, chains: set<string>, chain: string)
    returns (whole: seq<string>)
    requires Walked(walk, sends, met, grouped, chains) && met <= grouped.Keys && chain !in met && chain in grouped && chain !in chains
    ensures IsWalk(whole, grouped.Keys) && sends == SendsAlong(whole, grouped, chains)
  {
    var stopped := walk + [chain];
    assert stopped[..|walk|] == walk;
    assert forall c :: c in stopped <==> c in walk || c == chain;
    var rest := FinishWalk(stopped, grouped.Keys);
    StopsForGood(stopped, rest, grouped, chains);
    whole := stopped + rest;
  }

  /** The second loop: one transaction per chain, in any order, stopping at the first failure
      with the earlier chains already paid. Without a failed call the sends are those of some
      walk over all chains. */
  method SendPayments(wallets: Wallets, grouped: map<string, Amounts>)
    returns (r: Outcome<map<string, string>>, ghost sends: seq<Transfer>, ghost walk: seq<string>)
    modifies wallets, wallets.calls
    ensures old(wallets.calls.failed) <= wallets.calls.failed
    ensures r.Ok? <==> wallets.calls.failed == old(wallets.calls.failed) && grouped.Keys <= wallets.chains
    ensures wallets.transfers == old(wallets.transfers) + sends && SendsOf(sends, grouped)
    ensures r.Ok? ==> wallets.receipts == old(wallets.receipts) + ReceiptsOf(sends, r.value)
    ensures r.Ok? ==> r.value.Keys == grouped.Keys && forall chain | chain in grouped :: Transfer(chain, grouped[chain]) in sends
    ensures wallets.calls.failed == old(wallets.calls.failed) ==>
      IsWalk(walk, grouped.Keys) && sends == SendsAlong(walk, grouped, wallets.chains)
    ensures !r.Panic?
  {
    hide Walked, SendsOf, IsWalk, SendsAlong, ReceiptsOf;
    sends, walk := [], [];
    WalkBegins(grouped, wallets.chains);
    assert grouped.Keys - grouped.Keys == {};
    var transactionConfirmationByChain: map<string, string> := map[];
    var left := grouped.Keys;
    while left != {}
      invariant left <= grouped.Keys && transactionConfirmationByChain.Keys == grouped.Keys - left
      invariant wallets.transfers == old(wallets.transfers) + sends && SendsOf(sends, grouped)
      invariant forall s | s in sends :: s.chain !in left
      invariant wallets.receipts == old(wallets.receipts) + ReceiptsOf(sends, transactionConfirmationByChain)
      invariant wallets.calls.failed == old(wallets.calls.failed) && grouped.Keys - left <= wallets.chains
      invariant forall chain | chain in grouped && chain !in left :: Transfer(chain, grouped[chain]) in sends
      invariant Walked(walk, sends, grouped.Keys - left, grouped, wallets.chains)
      decreases left
    {
      var chain :| chain in left;
      if chain !in wallets.chains {
        walk := WalkStops(walk, sends, grouped.Keys - left, grouped, wallets.chains, chain);
        return Err, sends, walk;
      }
      var transactionID := wallets.SendMany(chain, grouped[chain]);
      if !transactionID.Ok? {
        return Err, sends, walk;
      }
      ReceiptsLast(sends, Transfer(chain, grouped[chain]), transactionConfirmationByChain, transactionID.value);
      SendsOn(sends, grouped, chain);
      WalkOn(walk, sends, grouped.Keys - left, grouped, wallets.chains, chain);
      assert grouped.Keys - left + {chain} == grouped.Keys - (left - {chain});
      transactionConfirmationByChain := transactionConfirmationByChain[chain := transactionID.value];
      left := left - {chain};
      sends := sends + [Transfer(chain, grouped[chain])];
      walk := walk + [chain];
    }
    assert grouped.Keys - left == grouped.Keys;
    WalkEnds(walk, sends, grouped, wallets.chains);
    return Ok(transactionConfirmationByChain), sends, walk;
  }

  /** Some order of the chains sends to one of them and then stops. */
  ghost predicate CanStrand(grouped: map<string, Amounts>, chains: set<string>) {
    exists walk :: IsWalk(walk, grouped.Keys) && Strands(walk, grouped, chains)
  }

  ghost predicate Strands(walk: seq<string>, grouped: map<string, Amounts>, chains: set<string>) {
    0 < |SendsAlong(walk, grouped, chains)| < |walk|
  }

  lemma {:induction false} AllSent(walk: seq<string>, grouped: map<string, Amounts>, chains: set<string>)
    requires forall chain | chain in walk :: chain in grouped && chain in chains
    ensures |SendsAlong(walk, grouped, chains)| == |walk|
  {
    if walk != [] {
      AllSent(walk[..|walk| - 1], grouped, chains);
    }
  }

  lemma {:induction false} SomeSent(walk: seq<string>, grouped: map<string, Amounts>, chains: set<string>)
    requires SendsAlong(walk, grouped, chains) != []
    ensures exists chain :: chain in walk && chain in chains
  {
    var front, last := walk[..|walk| - 1], walk[|walk| - 1];
    if SendsAlong(front, grouped, chains) != [] {
      SomeSent(front, grouped, chains);
      var chain :| chain in front && chain in chains;
      assert chain in walk;
    } else {
      assert last in walk;
    }
  }

  lemma StrandingNeedsBoth(walk: seq<string>, grouped: map<string, Amounts>, chains: set<string>)
    requires IsWalk(walk, grouped.Keys) && Strands(walk, grouped, chains)
    ensures (exists chain :: chain in grouped && chain in chains) && !(grouped.Keys <= chains)
  {
    SomeSent(walk, grouped, chains);
    if grouped.Keys <= chains {
      AllSent(walk, grouped, chains);
    }
  }

  lemma SentThenStopped(good: string, bad: string, grouped: map<string, Amounts>, chains: set<string>)
    requires good in grouped && good in chains && bad !in chains
    ensures |SendsAlong([good] + [bad], grouped, chains)| == 1
  {
    assert ([good] + [bad])[..1] == [good] && [good][..0] == [];
    assert SendsAlong([], grouped, chains) == [];
    assert SendsAlong([good], grouped, chains) == [] + [Transfer(good, grouped[good])];
  }

  lemma BothCanStrand(good: string, bad: string, grouped: map<string, Amounts>, chains: set<string>)
    requires good in grouped && good in chains && bad in grouped && bad !in chains
    ensures CanStrand(grouped, chains)
  {
    var met := [good] + [bad];
    var rest := FinishWalk(met, grouped.Keys);
    SentThenStopped(good, bad, grouped, chains);
    StopsForGood(met, rest, grouped, chains);
    assert Strands(met + rest, grouped, chains);
  }

  /** Without a failed call, a payout can send to some chains and then stop exactly when one of its
      chains has a wallet and another has none; the order of the map decides. */
  lemma StrandsExactly(grouped: map<string, Amounts>, chains: set<string>)
    ensures CanStrand(grouped, chains) <==> (exists chain :: chain in grouped && chain in chains) && !(grouped.Keys <= chains)
  {
    if walk :| IsWalk(walk, grouped.Keys) && Strands(walk, grouped, chains) {
      StrandingNeedsBoth(walk, grouped, chains);
    }
    if (exists chain :: chain in grouped && chain in chains) && !(grouped.Keys <= chains) {
      var good :| good in grouped && good in chains;
      var bad :| bad in grouped && bad !in chains;
      BothCanStrand(good, bad, grouped, chains);
    }
  }

  /** The smallest such payout: two chains, one wallet. */
  lemma OneOfTwoStrands()
    ensures CanStrand(map["a" := map["x" := 1.0], "b" := map["y" := 1.0]], {"a"})
  {
    var grouped: map<string, Amounts> := map["a" := map["x" := 1.0], "b" := map["y" := 1.0]];
    assert "a" in grouped && "b" in grouped;
    StrandsExactly(grouped, {"a"});
  }

  /** `bitcoinTryManyPayments`: the first two loops. */
  method BitcoinTryManyPayments(wallets: Wallets, batch: seq<Balance>, order: seq<string>)
    returns (r: Outcome<map<string, string>>, ghost sends: seq<Transfer>, ghost walk: seq<string>)
    modifies wallets, wallets.calls
    ensures old(wallets.calls.failed) <= wallets.calls.failed
    ensures r.Ok? <==>
      && wallets.calls.failed == old(wallets.calls.failed) && Resolved(batch, order)
      && forall b | b in batch :: b.account.chain in wallets.chains
    ensures wallets.transfers == old(wallets.transfers) + sends
    ensures !Resolved(batch, order) ==> !r.Ok? && sends == []
    ensures r.Panic? ==> exists b :: b in batch && PayAddress(b.account, order).Panic?
    ensures Resolved(batch, order) ==> SendsOf(sends, Grouped(batch, order))
    ensures Resolved(batch, order) && wallets.calls.failed == old(wallets.calls.failed) ==>
      IsWalk(walk, Grouped(batch, order).Keys) && sends == SendsAlong(walk, Grouped(batch, order), wallets.chains)
    ensures r.Ok? ==>
      && Resolved(batch, order)
      && wallets.receipts == old(wallets.receipts) + ReceiptsOf(sends, r.value)
      && (forall b | b in batch :: b.account.chain in r.value)
      && (forall chain | chain in Grouped(batch, order) :: Transfer(chain, Grouped(batch, order)[chain]) in sends)
  {
    sends, walk := [], [];
    var grouped := GroupPayments(batch, order);
    if !grouped.Ok? {
      return grouped.PropagateFailure(), sends, walk;
    }
    GroupedCovers(batch, order);
    r, sends, walk := SendPayments(wallets, grouped.value);
  }
}
