/** payouts/unlock.go: asks the chains what became of the pending blocks. */
module Unlock {
  import opened Outcomes
  import opened Bytes
  import opened Encoding
  import opened Ledger
  import opened FoundBlocks

  /** A transaction as the node describes it. */
  datatype CoinbaseTransaction = CoinbaseTransaction(categories: seq<string>, amount: real)

  /** What the nodes answer during one iteration; a missing key is an error. */
  datatype Nodes = Nodes(chains: set<string>, blocks: map<(string, string), seq<string>>,
                         transactions: map<(string, string), CoinbaseTransaction>)

  function ReverseText(s: string): Outcome<string> {
    if |s| % 2 == 0 then Ok(ReverseBlocks(s, 2)) else Err
  }

  function Lookup<K, V>(m: map<K, V>, k: K): Outcome<V> {
    if k in m then Ok(m[k]) else Err
  }

  /** The new state of one pending block. Any error, even the sign of an orphan that the
      confirmation data no longer matches, is an error of the whole iteration. */
  function Classify(b: Found, nodes: Nodes): Outcome<Found> {
    if b.chain !in nodes.chains then Err
    else
      var remote :- Lookup(nodes.blocks, (b.chain, b.hash));
      if |remote| < 1 then Err
      else
        var coinbaseHash :- ReverseText(remote[0]);
        if b.confirmationData != "" && b.confirmationData != coinbaseHash then Err
        else
          var littleEndian :- ReverseText(coinbaseHash);
          var transaction :- Lookup(nodes.transactions, (b.chain, littleEndian));
          if transaction.categories == [] then Panic
          else if transaction.categories[0] == "immature" then Ok(b.(reward := transaction.amount))
          else if transaction.categories[0] == "generate" then Ok(b.(status := Status.Confirmed, reward := transaction.amount))
          else Ok(b.(status := Orphaned, reward := 0.0))
  }

  /** Classification keeps everything but status and reward; an unfinished block stays pending. */
  lemma ClassifyKeeps(b: Found, nodes: Nodes)
    requires Classify(b, nodes).Ok?
    ensures var c := Classify(b, nodes).value; c == b.(status := c.status, reward := c.reward)
    ensures Classify(b, nodes).value.status.Pending? ==> b.status.Pending?
  {
  }

  // ---- What the classification means --------------------------------------------------------------

  /** The nodes show this transaction as the coinbase of the block: the one with the first id of the
      block that has its hash. Confirmation data the pool already has must be that id turned round. */
  ghost predicate Shows(nodes: Nodes, b: Found, tx: CoinbaseTransaction) {
    && b.chain in nodes.chains && (b.chain, b.hash) in nodes.blocks
    && var ids := nodes.blocks[(b.chain, b.hash)];
    && ids != [] && |ids[0]| % 2 == 0
    && (b.confirmationData == "" || b.confirmationData == ReverseBlocks(ids[0], 2))
    && (b.chain, ids[0]) in nodes.transactions && nodes.transactions[(b.chain, ids[0])] == tx
  }

  /** What such a transaction turns the block into: only status and reward change. */
  ghost predicate TurnsInto(tx: CoinbaseTransaction, b: Found, c: Found) {
    && c == b.(status := c.status, reward := c.reward) && tx.categories != []
    && (tx.categories[0] == "generate" ==> c.status.Confirmed? && c.reward == tx.amount)
    && (tx.categories[0] == "immature" ==> c.status == b.status && c.reward == tx.amount)
    && (tx.categories[0] !in {"generate", "immature"} ==> c.status.Orphaned? && c.reward == 0.0)
  }

  /** The nodes' answers make the block this one. */
  ghost predicate Becomes(b: Found, c: Found, nodes: Nodes) {
    exists tx :: Shows(nodes, b, tx) && TurnsInto(tx, b, c)
  }

  /** The nodes call the block's coinbase mature. */
  ghost predicate Generated(b: Found, nodes: Nodes) {
    exists tx :: Shows(nodes, b, tx) && tx.categories != [] && tx.categories[0] == "generate"
  }

  /** The nodes show a coinbase of the block, with details or without. */
  ghost predicate Answered(b: Found, nodes: Nodes, details: bool) {
    exists tx :: Shows(nodes, b, tx) && (tx.categories != [] <==> details)
  }

  lemma TurnedTwice(id: string, turned: string)
    requires ReverseText(id) == Ok(turned)
    ensures ReverseText(turned) == Ok(id)
  {
    WholePairs(id);
    ReverseBlocksTwice(id, 2);
    ReverseBlocksLength(id, 2);
  }

  /** Classification reads the nodes' answers so: it succeeds exactly when the nodes show the block's
      coinbase with details, panics exactly when they show it without, and its result is what that
      coinbase makes of the block. */
  lemma ClassifyMeans(b: Found, nodes: Nodes)
    ensures Classify(b, nodes).Ok? <==> Answered(b, nodes, true)
    ensures Classify(b, nodes).Panic? <==> Answered(b, nodes, false)
    ensures forall c :: Classify(b, nodes) == Ok(c) <==> Becomes(b, c, nodes)
  {
    if b.chain in nodes.chains && (b.chain, b.hash) in nodes.blocks {
      var ids := nodes.blocks[(b.chain, b.hash)];
      if ids != [] && |ids[0]| % 2 == 0 {
        TurnedTwice(ids[0], ReverseText(ids[0]).value);
        if (b.chain, ids[0]) in nodes.transactions {
          var tx := nodes.transactions[(b.chain, ids[0])];
          assert Shows(nodes, b, tx) <==> b.confirmationData == "" || b.confirmationData == ReverseBlocks(ids[0], 2);
        }
      }
    }
  }

  /** The first block that cannot be classified is an error or, if `panics`, a panic. */
  ghost predicate FirstFailure(pending: seq<Found>, nodes: Nodes, panics: bool) {
    exists i :: 0 <= i < |pending| && !Classify(pending[i], nodes).Ok? && (Classify(pending[i], nodes).Panic? <==> panics)
                && forall j :: 0 <= j < i ==> Classify(pending[j], nodes).Ok?
  }

  /** The loop over the blocks, writing each back in place. Either every block is classified, or
      none is reported. */
  method ClassifyBlocks(pending: seq<Found>, nodes: Nodes) returns (r: Outcome<seq<Found>>)
    ensures r.Ok? ==> |r.value| == |pending| && forall i :: 0 <= i < |pending| ==> Classify(pending[i], nodes) == Ok(r.value[i])
    ensures r.Ok? <==> forall i :: 0 <= i < |pending| ==> Classify(pending[i], nodes).Ok?
    ensures !r.Ok? ==> FirstFailure(pending, nodes, r.Panic?)
    ensures r.Ok? ==> forall i :: 0 <= i < |pending| ==> Becomes(pending[i], r.value[i], nodes)
    ensures r.Ok? <==> forall i :: 0 <= i < |pending| ==> Answered(pending[i], nodes, true)
  {
    forall i | 0 <= i < |pending|
      ensures Classify(pending[i], nodes).Ok? <==> Answered(pending[i], nodes, true)
      ensures forall c :: Classify(pending[i], nodes) == Ok(c) <==> Becomes(pending[i], c, nodes)
    {
      ClassifyMeans(pending[i], nodes);
    }
    hide Becomes, Answered;
    var blocks := pending;
    for i := 0 to |pending|
      invariant |blocks| == |pending|
      invariant forall j :: 0 <= j < i ==> Classify(pending[j], nodes) == Ok(blocks[j])
      invariant forall j :: i <= j < |pending| ==> blocks[j] == pending[j]
    {
      var localBlock := blocks[i];
      if localBlock.chain !in nodes.chains {
        return Err;
      }
      var remoteBlock :- Lookup(nodes.blocks, (localBlock.chain, localBlock.hash));
      if |remoteBlock| < 1 {
        return Err;
      }
      var remoteCoinbaseTransactionHash :- ReverseHexBytes(remoteBlock[0]);
      if localBlock.confirmationData != "" {
        if localBlock.confirmationData != remoteCoinbaseTransactionHash {
          return Err;
        }
      } else {
        localBlock := localBlock.(confirmationData := remoteCoinbaseTransactionHash);
      }
      var littleEndian :- ReverseHexBytes(localBlock.confirmationData);
      var coinbaseTransaction :- Lookup(nodes.transactions, (localBlock.chain, littleEndian));
      if coinbaseTransaction.categories == [] {
        return Panic;
      }
      if coinbaseTransaction.categories[0] == "immature" {
        blocks := blocks[i := blocks[i].(reward := coinbaseTransaction.amount)];
      } else if coinbaseTransaction.categories[0] == "generate" {
        blocks := blocks[i := blocks[i].(status := Status.Confirmed, reward := coinbaseTransaction.amount)];
      } else {
        blocks := blocks[i := blocks[i].(status := Orphaned, reward := 0.0)];
      }
    }
    return Ok(blocks);
  }

  /** A pending block of the pool. */
  ghost predicate IsPending(rows: map<nat, Found>, pool: string, id: nat) {
    id in rows && rows[id].pool == pool && rows[id].status.Pending?
  }

  /** The nodes' answers classify every pending block. */
  ghost predicate Classifiable(rows: map<nat, Found>, pool: string, nodes: Nodes) {
    forall id | IsPending(rows, pool, id) :: Classify(rows[id], nodes).Ok?
  }

  /** Pending blocks of the pool, as the nodes' answers classify them. */
  ghost predicate Classified(blocks: seq<Found>, rows: map<nat, Found>, pool: string, nodes: Nodes) {
    && DistinctIds(blocks)
    && forall b | b in blocks :: IsPending(rows, pool, b.id) && Classify(rows[b.id], nodes) == Ok(b)
  }

  /** Every pending block is among them. */
  ghost predicate Complete(blocks: seq<Found>, rows: map<nat, Found>, pool: string) {
    forall id | IsPending(rows, pool, id) :: exists b :: b in blocks && b.id == id
  }

  /** A node describes a coinbase transaction without details. */
  ghost predicate TransactionPanics(rows: map<nat, Found>, pool: string, nodes: Nodes) {
    exists id :: IsPending(rows, pool, id) && Classify(rows[id], nodes).Panic?
  }

  /** The same for all pending blocks. */
  lemma AnswersMean(rows: map<nat, Found>, pool: string, nodes: Nodes)
    ensures Classifiable(rows, pool, nodes) <==> forall id | IsPending(rows, pool, id) :: Answered(rows[id], nodes, true)
    ensures TransactionPanics(rows, pool, nodes) <==> exists id :: IsPending(rows, pool, id) && Answered(rows[id], nodes, false)
    ensures forall id, c | IsPending(rows, pool, id) :: Classify(rows[id], nodes) == Ok(c) <==> Becomes(rows[id], c, nodes)
  {
    forall id | id in rows
      ensures Classify(rows[id], nodes).Ok? <==> Answered(rows[id], nodes, true)
      ensures Classify(rows[id], nodes).Panic? <==> Answered(rows[id], nodes, false)
      ensures forall c :: Classify(rows[id], nodes) == Ok(c) <==> Becomes(rows[id], c, nodes)
    {
      ClassifyMeans(rows[id], nodes);
    }
  }

  /** The pending blocks of the pool, each with its new status and reward. */
  method UnlockBlocks(found: FoundRepository, pool: string, nodes: Nodes) returns (r: Outcome<seq<Found>>)
    requires found.Valid()
    modifies found.calls
    ensures old(found.calls.failed) <= found.calls.failed
    ensures r.Ok? <==> found.calls.failed == old(found.calls.failed) && Classifiable(found.blocks, pool, nodes)
    ensures r.Ok? ==> Classified(r.value, found.blocks, pool, nodes) && Complete(r.value, found.blocks, pool)
    ensures r.Panic? ==> TransactionPanics(found.blocks, pool, nodes)
    ensures r.Ok? ==> forall b | b in r.value :: b.id in found.blocks && Becomes(found.blocks[b.id], b, nodes)
    ensures r.Ok? <==> found.calls.failed == old(found.calls.failed) && forall id | IsPending(found.blocks, pool, id) :: Answered(found.blocks[id], nodes, true)
    ensures r.Panic? ==> exists id :: IsPending(found.blocks, pool, id) && Answered(found.blocks[id], nodes, false)
  {
    AnswersMean(found.blocks, pool, nodes);
    var pending :- found.PendingBlocksForPool(pool);
    var blocks :- ClassifyBlocks(pending, nodes);
    forall i | 0 <= i < |blocks| ensures blocks[i].id == pending[i].id {
      ClassifyKeeps(pending[i], nodes);
    }
    forall id | IsPending(found.blocks, pool, id) ensures exists b :: b in blocks && b.id == id {
      var i :| 0 <= i < |pending| && pending[i] == found.blocks[id];
      assert blocks[i] in blocks;
    }
    var works := found.calls.Attempt();
    if !works {
      return Err;
    }
    return Ok(blocks);
  }
}
