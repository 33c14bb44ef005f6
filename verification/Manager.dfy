/** payouts/manager.go: the endless loop that unlocks blocks, rewards them and pays balances. */
module Manager {
  import opened Outcomes
  import opened MapSums
  import opened Ledger
  import opened Shares
  import opened Scoring
  import opened Rewards
  import opened FoundBlocks
  import opened Unlock
  import opened Payer
  import opened Settlement
  import opened Paying
  import opened Books
  import opened History
  import opened BlockFormat
  import Pplns

  // ---- The loop ------------------------------------------------------------------------------------

  function ToReward(b: Found): Rewards.Confirmed {
    Rewards.Confirmed(b.id, b.chain, b.height, b.reward, b.created)
  }

  /** The report is about this block, and some visit of the stored shares explains it. */
  ghost predicate Explained(p: Report, b: Found, config: Config, index: nat, rows: set<Share>) {
    && p.id == b.id && p.created == b.created && p.reward == b.reward
    && exists visit :: IsReport(p, config, ToReward(b), index, rows, visit)
  }

  lemma ReportNames(p: Report, b: Found, config: Config, index: nat, rows: set<Share>, visit: seq<seq<Share>>)
    requires IsReport(p, config, ToReward(b), index, rows, visit)
    ensures p.id == b.id && p.created == b.created && p.reward == b.reward
  {
  }

  /** Its entries are for the block's own pool and chain, and name its height. */
  lemma ExplainedEntries(p: Report, b: Found, config: Config, index: nat, rows: set<Share>)
    requires Explained(p, b, config, index, rows)
    ensures forall c | c in p.entries ::
      && c.account.pool == config.poolName && c.account.chain == b.chain
      && (c.usage == PoolReward(b.height) || c.usage == MinerReward("PPLNS", b.height))
  {
    var visit :| IsReport(p, config, ToReward(b), index, rows, visit);
    EntriesNameBlock(p, config, ToReward(b), index, Flatten(visit));
  }

  /** What the loop gets from outside before and during one turn: the blocks and shares stored
      since the last one, what the nodes answer, and which node of each chain is in use. */
  datatype Turn = Turn(arrivals: seq<Found>, newShares: set<Share>, nodes: Nodes, active: map<string, nat>)

  /** The row is saved as confirmed. */
  predicate IsConfirmed(rows: map<nat, Found>, id: nat) {
    id in rows && rows[id].status.Confirmed?
  }

  /** A block is handed over once if it is saved as confirmed, once while its saving is still
      `owed`, and once for every time its update was `refused` or it was `abandoned`. */
  ghost predicate Counted(reports: seq<Report>, owed: set<nat>, refused: multiset<nat>, abandoned: multiset<nat>, rows: map<nat, Found>) {
    forall id :: Handed(reports, id) == Unit(id in owed) + Unit(IsConfirmed(rows, id)) + refused[id] + abandoned[id]
  }

  lemma CountReward(reports: seq<Report>, p: Report, owed: set<nat>, refused: multiset<nat>, abandoned: multiset<nat>, rows: map<nat, Found>)
    requires Counted(reports, owed, refused, abandoned, rows) && p.id !in owed
    ensures Counted(reports + [p], owed + {p.id}, refused, abandoned, rows)
  {
    forall id: nat ensures Handed(reports + [p], id) == Handed(reports, id) + Unit(p.id == id) {
      ReportsLast(reports, p, id);
    }
  }

  /** Saving a block settles what it is owed; failing to save a confirmed one loses it. */
  lemma CountSave(reports: seq<Report>, owed: set<nat>, refused: multiset<nat>, abandoned: multiset<nat>, rows: map<nat, Found>, b: Found)
    requires Counted(reports, owed, refused, abandoned, rows) && b.id in rows && !IsConfirmed(rows, b.id)
    requires b.id in owed <==> b.status.Confirmed?
    ensures Counted(reports, owed - {b.id}, refused, abandoned, rows[b.id := b])
    ensures Counted(reports, owed - {b.id}, refused + Loss(b), abandoned, rows)
  {
  }

  /** The blocks of a set were added once each. */
  ghost predicate OnceMore(before: multiset<nat>, after: multiset<nat>, ids: set<nat>) {
    forall id :: after[id] == before[id] + Unit(id in ids)
  }

  /** Some blocks of a set may have been added once. */
  ghost predicate OnceAtMost(before: multiset<nat>, after: multiset<nat>, ids: set<nat>) {
    forall id :: after[id] <= before[id] + Unit(id in ids)
  }

  lemma CountLost(reports: seq<Report>, owed: set<nat>, refused: multiset<nat>, abandoned: multiset<nat>, rows: map<nat, Found>)
    requires Counted(reports, owed, refused, abandoned, rows)
    ensures Counted(reports, {}, refused, abandoned + multiset(owed), rows)
    ensures OnceMore(abandoned, abandoned + multiset(owed), owed)
  {
  }

  /** The blocks of a set were handed over once more. */
  ghost predicate HandedTo(before: seq<Report>, after: seq<Report>, ids: set<nat>) {
    forall id :: Handed(after, id) == Handed(before, id) + Unit(id in ids)
  }

  lemma OwedAreHanded(before: seq<Report>, after: seq<Report>, owed: set<nat>, refused: multiset<nat>, abandoned: multiset<nat>, rows: map<nat, Found>)
    requires Counted(before, {}, refused, abandoned, rows) && Counted(after, owed, refused, abandoned, rows)
    ensures HandedTo(before, after, owed)
  {
    forall id ensures Handed(after, id) == Handed(before, id) + Unit(id in owed) {
      assert Handed(before, id) == Unit(IsConfirmed(rows, id)) + refused[id] + abandoned[id];
    }
  }

  /** The confirmed blocks from `i` on. */
  function Unsaved(blocks: seq<Found>, i: nat): set<nat>
    requires i <= |blocks|
    decreases |blocks| - i
  {
    if i == |blocks| then {}
    else Unsaved(blocks, i + 1) + if blocks[i].status.Confirmed? then {blocks[i].id} else {}
  }

  lemma {:induction false} UnsavedIs(blocks: seq<Found>, i: nat)
    requires i <= |blocks|
    ensures forall id :: id in Unsaved(blocks, i) <==> exists j :: i <= j < |blocks| && blocks[j].status.Confirmed? && blocks[j].id == id
    decreases |blocks| - i
  {
    if i < |blocks| {
      UnsavedIs(blocks, i + 1);
    }
  }

  lemma UnsavedNext(blocks: seq<Found>, i: nat)
    requires DistinctIds(blocks) && i < |blocks|
    ensures Unsaved(blocks, i) - {blocks[i].id} == Unsaved(blocks, i + 1)
    ensures blocks[i].id in Unsaved(blocks, i) <==> blocks[i].status.Confirmed?
  {
    UnsavedIs(blocks, i + 1);
  }

  /** The ids of the first `i` blocks. */
  function FirstIds(blocks: seq<Found>, i: nat): set<nat>
    requires i <= |blocks|
  {
    if i == 0 then {} else FirstIds(blocks, i - 1) + {blocks[i - 1].id}
  }

  lemma {:induction false} FirstIdsAre(blocks: seq<Found>, i: nat)
    requires i <= |blocks|
    ensures forall id :: id in FirstIds(blocks, i) <==> exists j :: 0 <= j < i && blocks[j].id == id
  {
    if i > 0 {
      FirstIdsAre(blocks, i - 1);
    }
  }

  lemma {:induction false} FirstIdsWithin(blocks: seq<Found>, i: nat, n: nat)
    requires i <= n <= |blocks|
    ensures FirstIds(blocks, i) <= FirstIds(blocks, n)
  {
    if i < n {
      FirstIdsWithin(blocks, i, n - 1);
    }
  }

  lemma FirstIdsNext(blocks: seq<Found>, i: nat)
    requires DistinctIds(blocks) && i < |blocks|
    ensures blocks[i].id !in FirstIds(blocks, i) && FirstIds(blocks, i + 1) == FirstIds(blocks, i) + {blocks[i].id}
  {
    FirstIdsAre(blocks, i);
  }

  /** Once all confirmed blocks are handed over, exactly they are owed. */
  lemma AllHanded(blocks: seq<Found>, confirmed: seq<Found>)
    requires DistinctIds(blocks) && confirmed == ConfirmedOf(blocks)
    ensures FirstIds(confirmed, |confirmed|) == Unsaved(blocks, 0)
  {
    ConfirmedMembers(blocks);
    UnsavedIs(blocks, 0);
    FirstIdsAre(confirmed, |confirmed|);
    forall id ensures id in FirstIds(confirmed, |confirmed|) <==> id in Unsaved(blocks, 0) {
      if id in FirstIds(confirmed, |confirmed|) {
        var j :| 0 <= j < |confirmed| && confirmed[j].id == id;
        assert confirmed[j] in blocks;
      }
      if id in Unsaved(blocks, 0) {
        var j :| 0 <= j < |blocks| && blocks[j].status.Confirmed? && blocks[j].id == id;
        assert blocks[j] in confirmed;
      }
    }
  }

  /** The blocks of a turn: pending rows in a new state. */
  ghost predicate Fresh(blocks: seq<Found>, rows: map<nat, Found>, active: map<string, nat>) {
    && DistinctIds(blocks)
    && forall b | b in blocks :: b.id in rows && rows[b.id].status.Pending? && Updated(rows[b.id], b) == b && b.chain in active
  }

  /** The report is about a block of the turn that is now confirmed. */
  ghost predicate RewardOf(p: Report, blocks: seq<Found>, active: map<string, nat>, config: Config, rows: set<Share>) {
    exists b :: b in blocks && b.status.Confirmed? && b.chain in active && Explained(p, b, config, active[b.chain], rows)
  }

  /** All reports from `start` on are about such blocks. */
  ghost predicate RewardsOf(reports: seq<Report>, start: nat, blocks: seq<Found>, active: map<string, nat>, config: Config, rows: set<Share>) {
    |reports| > start ==>
      RewardOf(reports[|reports| - 1], blocks, active, config, rows) && RewardsOf(reports[..|reports| - 1], start, blocks, active, config, rows)
  }

  lemma RewardsNext(reports: seq<Report>, p: Report, start: nat, blocks: seq<Found>, active: map<string, nat>, config: Config, rows: set<Share>,
                    b: Found)
    requires RewardsOf(reports, start, blocks, active, config, rows)
    requires b in blocks && b.status.Confirmed? && b.chain in active && Explained(p, b, config, active[b.chain], rows)
    ensures RewardsOf(reports + [p], start, blocks, active, config, rows)
  {
    assert (reports + [p])[..|reports|] == reports;
    assert RewardOf(p, blocks, active, config, rows);
  }

  /** The rows a turn may leave: as they were, or a pending row as the chain now has it. */
  ghost predicate Advanced(before: map<nat, Found>, after: map<nat, Found>, nodes: Nodes) {
    && after.Keys == before.Keys
    && forall id | id in before :: after[id] == before[id] || (before[id].status.Pending? && Classify(before[id], nodes) == Ok(after[id]))
  }

  /** The pending blocks of the pool that the nodes' answers confirm. */
  ghost function JustConfirmed(rows: map<nat, Found>, pool: string, nodes: Nodes): set<nat> {
    set id | id in rows && IsPending(rows, pool, id) && Classify(rows[id], nodes).Ok? && Classify(rows[id], nodes).value.status.Confirmed?
  }

  /** They are the pending ones whose coinbase the nodes call mature. */
  lemma ConfirmedAreGenerated(rows: map<nat, Found>, pool: string, nodes: Nodes)
    ensures forall id :: id in JustConfirmed(rows, pool, nodes) <==> IsPending(rows, pool, id) && Generated(rows[id], nodes)
  {
    forall id | IsPending(rows, pool, id)
      ensures id in JustConfirmed(rows, pool, nodes) <==> Generated(rows[id], nodes)
    {
      var b := rows[id];
      ClassifyMeans(b, nodes);
      if id in JustConfirmed(rows, pool, nodes) {
        assert Becomes(b, Classify(b, nodes).value, nodes);
      }
      if tx :| Shows(nodes, b, tx) && tx.categories != [] && tx.categories[0] == "generate" {
        assert Answered(b, nodes, true);
        assert Becomes(b, Classify(b, nodes).value, nodes);
      }
    }
  }

  /** The report is about a block that is now confirmed. */
  ghost predicate JustRewarded(p: Report, before: map<nat, Found>, nodes: Nodes, active: map<string, nat>, config: Config, rows: set<Share>) {
    && p.id in JustConfirmed(before, config.poolName, nodes) && before[p.id].chain in active
    && Explained(p, Classify(before[p.id], nodes).value, config, active[before[p.id].chain], rows)
  }

  lemma ClassifiedIsFresh(blocks: seq<Found>, rows: map<nat, Found>, pool: string, nodes: Nodes, active: map<string, nat>)
    requires Classified(blocks, rows, pool, nodes) && nodes.chains == active.Keys
    ensures Fresh(blocks, rows, active)
  {
    forall b | b in blocks ensures Updated(rows[b.id], b) == b && b.chain in active {
      ClassifyKeeps(rows[b.id], nodes);
    }
  }

  lemma SavingAdvances(blocks: seq<Found>, rows: map<nat, Found>, pool: string, nodes: Nodes, saved: map<nat, Found>)
    requires Classified(blocks, rows, pool, nodes)
    requires forall id | id in saved :: saved[id].id == id && saved[id] in blocks
    ensures Advanced(rows, rows + saved, nodes)
  {
    forall id | id in saved ensures id in rows && rows[id].status.Pending? && Classify(rows[id], nodes) == Ok(saved[id]) {
      assert saved[id] in blocks;
    }
  }

  /** All reports from `start` on are about such blocks. */
  ghost predicate AllJust(reports: seq<Report>, start: nat, before: map<nat, Found>, nodes: Nodes, active: map<string, nat>, config: Config, rows: set<Share>) {
    |reports| > start ==>
      JustRewarded(reports[|reports| - 1], before, nodes, active, config, rows)
      && AllJust(reports[..|reports| - 1], start, before, nodes, active, config, rows)
  }

  lemma {:induction false} RewardsAreJust(reports: seq<Report>, start: nat, blocks: seq<Found>, before: map<nat, Found>, nodes: Nodes,
                                          active: map<string, nat>, config: Config, rows: set<Share>)
    requires Classified(blocks, before, config.poolName, nodes) && RewardsOf(reports, start, blocks, active, config, rows)
    ensures AllJust(reports, start, before, nodes, active, config, rows)
  {
    if |reports| > start {
      var front, last := reports[..|reports| - 1], reports[|reports| - 1];
      RewardsAreJust(front, start, blocks, before, nodes, active, config, rows);
      RewardIsJust(last, blocks, before, nodes, active, config, rows);
    }
  }

  lemma RewardIsJust(p: Report, blocks: seq<Found>, before: map<nat, Found>, nodes: Nodes, active: map<string, nat>, config: Config, rows: set<Share>)
    requires Classified(blocks, before, config.poolName, nodes) && RewardOf(p, blocks, active, config, rows)
    ensures JustRewarded(p, before, nodes, active, config, rows)
  {
    var b :| b in blocks && b.status.Confirmed? && b.chain in active && Explained(p, b, config, active[b.chain], rows);
    ClassifyKeeps(before[b.id], nodes);
  }

  /** Every pending block is saved as the nodes' answers have it. */
  ghost predicate FullyAdvanced(before: map<nat, Found>, after: map<nat, Found>, pool: string, nodes: Nodes) {
    forall id | IsPending(before, pool, id) :: id in after && Classify(before[id], nodes) == Ok(after[id])
  }

  /** The confirmed blocks of a turn are those just confirmed. */
  lemma UnsavedAreConfirmed(blocks: seq<Found>, rows: map<nat, Found>, pool: string, nodes: Nodes)
    requires Classified(blocks, rows, pool, nodes) && Complete(blocks, rows, pool)
    ensures Unsaved(blocks, 0) == JustConfirmed(rows, pool, nodes)
  {
    UnsavedIs(blocks, 0);
    forall id ensures id in Unsaved(blocks, 0) <==> id in JustConfirmed(rows, pool, nodes) {
      if id in Unsaved(blocks, 0) {
        var j :| 0 <= j < |blocks| && blocks[j].status.Confirmed? && blocks[j].id == id;
        assert blocks[j] in blocks;
      }
      if id in JustConfirmed(rows, pool, nodes) {
        var b :| b in blocks && b.id == id;
        var j :| 0 <= j < |blocks| && blocks[j] == b;
      }
    }
  }

  // ---- What a turn can panic at --------------------------------------------------------------------

  /** The index of a node in use is past the configured nodes. */
  ghost predicate NodePanics(rows: map<nat, Found>, nodes: Nodes, active: map<string, nat>, config: Config) {
    exists id | id in JustConfirmed(rows, config.poolName, nodes) ::
      rows[id].chain in active && IndexPanics(config, ToReward(Classify(rows[id], nodes).value), active[rows[id].chain])
  }

  lemma PanicsAtNode(b: Found, blocks: seq<Found>, rows: map<nat, Found>, nodes: Nodes, active: map<string, nat>, config: Config)
    requires Classified(blocks, rows, config.poolName, nodes)
    requires b in blocks && b.status.Confirmed? && b.chain in active && IndexPanics(config, ToReward(b), active[b.chain])
    ensures NodePanics(rows, nodes, active, config)
  {
    ClassifyKeeps(rows[b.id], nodes);
    assert b.id in JustConfirmed(rows, config.poolName, nodes);
  }

  /** The nodes describe every transaction, and each node in use is a configured one. */
  ghost predicate Steady(t: Turn, config: Config) {
    && (forall k | k in t.nodes.transactions :: t.nodes.transactions[k].categories != [])
    && (forall chain | chain in t.active :: chain in config.nodes ==> t.active[chain] < |config.nodes[chain]|)
  }

  lemma PanicsNeedCause(t: Turn, config: Config, blocks: map<nat, Found>, rows: map<Account, real>, thresholds: map<(string, string), real>)
    requires TransactionPanics(blocks, config.poolName, t.nodes) || NodePanics(blocks, t.nodes, t.active, config)
      || AddressPanics(rows, thresholds, config)
    ensures |config.chainOrder| > 1 || !Steady(t, config)
  {
    if id :| IsPending(blocks, config.poolName, id) && Classify(blocks[id], t.nodes).Panic? {
      assert exists k :: k in t.nodes.transactions && t.nodes.transactions[k].categories == [];
    } else if NodePanics(blocks, t.nodes, t.active, config) {
      var id :| id in JustConfirmed(blocks, config.poolName, t.nodes)
        && blocks[id].chain in t.active && IndexPanics(config, ToReward(Classify(blocks[id], t.nodes).value), t.active[blocks[id].chain]);
      ClassifyKeeps(blocks[id], t.nodes);
    }
  }

  lemma AllSaved(blocks: seq<Found>, rows: map<nat, Found>, pool: string, nodes: Nodes, saved: map<nat, Found>)
    requires Classified(blocks, rows, pool, nodes) && Complete(blocks, rows, pool)
    requires forall id | id in saved :: saved[id].id == id && saved[id] in blocks
    requires forall b | b in blocks :: b.id in saved
    ensures FullyAdvanced(rows, rows + saved, pool, nodes)
  {
    forall id | IsPending(rows, pool, id) ensures id in saved && Classify(rows[id], nodes) == Ok(saved[id]) {
      var b :| b in blocks && b.id == id;
      assert saved[id] in blocks;
    }
  }

  /** A block's row at two times. Only a pending row changes, and only in status and reward. */
  ghost predicate SameBlock(before: Found, after: Found) {
    after == before || (before.status.Pending? && after == before.(status := after.status, reward := after.reward))
  }

  ghost predicate RowsKept(before: map<nat, Found>, after: map<nat, Found>) {
    forall id | id in before :: id in after && SameBlock(before[id], after[id])
  }

  /** A turn changes rows only as the nodes' answers have them. */
  lemma AdvancedBecomes(before: map<nat, Found>, after: map<nat, Found>, nodes: Nodes)
    requires Advanced(before, after, nodes)
    ensures forall id | id in before :: after[id] == before[id] || (before[id].status.Pending? && Becomes(before[id], after[id], nodes))
  {
    forall id | id in before && after[id] != before[id] ensures Becomes(before[id], after[id], nodes) {
      ClassifyMeans(before[id], nodes);
    }
  }

  lemma RowsStay(rows: map<nat, Found>)
    ensures RowsKept(rows, rows)
  {
  }

  lemma KeptTwice(first: map<nat, Found>, second: map<nat, Found>, third: map<nat, Found>)
    requires RowsKept(first, second) && RowsKept(second, third)
    ensures RowsKept(first, third)
  {
  }

  /** A new pending row changes no other and no count. */
  lemma RowJoins(first: map<nat, Found>, rows: map<nat, Found>, id: nat, b: Found,
                 reports: seq<Report>, refused: multiset<nat>, abandoned: multiset<nat>)
    requires RowsKept(first, rows) && id !in rows && b.status.Pending? && Counted(reports, {}, refused, abandoned, rows)
    ensures RowsKept(first, rows[id := b]) && Counted(reports, {}, refused, abandoned, rows[id := b])
  {
  }

  lemma AdvancedKeeps(rows: map<nat, Found>, before: map<nat, Found>, after: map<nat, Found>, nodes: Nodes)
    requires RowsKept(rows, before) && Advanced(before, after, nodes)
    ensures RowsKept(before, after) && RowsKept(rows, after)
  {
    forall id | id in before ensures SameBlock(before[id], after[id]) {
      if after[id] != before[id] {
        ClassifyKeeps(before[id], nodes);
      }
    }
  }

  /** The report is about a block of the table as a turn's answers confirm it. */
  ghost predicate RewardedAt(p: Report, t: Turn, config: Config, rows: map<nat, Found>, seen: set<Share>) {
    exists blocks :: JustRewarded(p, blocks, t.nodes, t.active, config, seen) && p.id in rows && SameBlock(blocks[p.id], rows[p.id])
  }

  ghost predicate AllAt(reports: seq<Report>, start: nat, t: Turn, config: Config, rows: map<nat, Found>, seen: set<Share>) {
    forall i | start <= i < |reports| :: RewardedAt(reports[i], t, config, rows, seen)
  }

  lemma {:induction false} TurnRewards(reports: seq<Report>, start: nat, t: Turn, config: Config, blocks: map<nat, Found>, rows: map<nat, Found>,
                                       seen: set<Share>)
    requires AllJust(reports, start, blocks, t.nodes, t.active, config, seen) && RowsKept(blocks, rows)
    ensures AllAt(reports, start, t, config, rows, seen)
  {
    if |reports| > start {
      var front := reports[..|reports| - 1];
      TurnRewards(front, start, t, config, blocks, rows, seen);
      forall i | start <= i < |reports| ensures RewardedAt(reports[i], t, config, rows, seen) {
        if i < |front| {
          assert RewardedAt(front[i], t, config, rows, seen);
        } else {
          assert SameBlock(blocks[reports[i].id], rows[reports[i].id]);
        }
      }
    }
  }

  /** The same for some turn of a script, and shares that hold `least` and lie within `most`. */
  ghost predicate RewardedIn(p: Report, script: seq<Turn>, config: Config, rows: map<nat, Found>, least: set<Share>, most: set<Share>) {
    exists t, seen :: t in script && least <= seen <= most && RewardedAt(p, t, config, rows, seen)
  }

  ghost predicate AllIn(reports: seq<Report>, start: nat, script: seq<Turn>, config: Config, rows: map<nat, Found>, least: set<Share>, most: set<Share>) {
    forall i | start <= i < |reports| :: RewardedIn(reports[i], script, config, rows, least, most)
  }

  lemma NoneYet(reports: seq<Report>, script: seq<Turn>, config: Config, rows: map<nat, Found>, seen: set<Share>)
    ensures AllIn(reports, |reports|, script, config, rows, seen, seen)
  {
  }

  /** A turn's reports join those of the turns before it. */
  lemma ReportsJoin(before: seq<Report>, after: seq<Report>, start: nat, script: seq<Turn>, t: Turn, config: Config,
                    rows: map<nat, Found>, nowRows: map<nat, Found>, least: set<Share>, stored: set<Share>, most: set<Share>)
    requires AllIn(before, start, script, config, rows, least, stored) && before <= after && least <= stored <= most
    requires t in script && AllAt(after, |before|, t, config, nowRows, most) && RowsKept(rows, nowRows)
    ensures AllIn(after, start, script, config, nowRows, least, most)
  {
    forall i | start <= i < |after| ensures RewardedIn(after[i], script, config, nowRows, least, most) {
      if i < |before| {
        RewardStays(after[i], script, config, rows, nowRows, least, stored, most);
      } else {
        assert RewardedAt(after[i], t, config, nowRows, most);
      }
    }
  }

  lemma RewardStays(p: Report, script: seq<Turn>, config: Config, rows: map<nat, Found>, nowRows: map<nat, Found>,
                    least: set<Share>, stored: set<Share>, most: set<Share>)
    requires RewardedIn(p, script, config, rows, least, stored) && RowsKept(rows, nowRows) && stored <= most
    ensures RewardedIn(p, script, config, nowRows, least, most)
  {
    var t, seen :| t in script && least <= seen <= stored && RewardedAt(p, t, config, rows, seen);
    var blocks: map<nat, Found> :| JustRewarded(p, blocks, t.nodes, t.active, config, seen) && p.id in rows && SameBlock(blocks[p.id], rows[p.id]);
    assert SameBlock(blocks[p.id], nowRows[p.id]);
    assert RewardedAt(p, t, config, nowRows, seen);
  }

  /** The stall over a run: once some stored shares of the pool add up to the PPLNS window, every
      settled report of a block that sees them credits no miner, when no two shares were created
      at the same instant. */
  lemma StalledRun(p: Report, script: seq<Turn>, config: Config, rows: map<nat, Found>, least: set<Share>, most: set<Share>, stored: seq<Share>)
    requires config.scheme.PPLNS? && p.settled && RewardedIn(p, script, config, rows, least, most) && NoTies(most, config.poolName)
    requires Distinct(stored) && Total(stored, None) >= Pplns.N_WINDOW
    requires forall s | s in stored :: s in least && s.pool == config.poolName && s.created <= p.created
    ensures p.miners == 0.0
  {
    var t, seen :| t in script && least <= seen <= most && RewardedAt(p, t, config, rows, seen);
    var blocks: map<nat, Found> :| JustRewarded(p, blocks, t.nodes, t.active, config, seen) && p.id in rows && SameBlock(blocks[p.id], rows[p.id]);
    StalledReport(p, Classify(blocks[p.id], t.nodes).value, config, t.active[blocks[p.id].chain], seen, most, stored);
  }

  lemma StalledReport(p: Report, b: Found, config: Config, index: nat, seen: set<Share>, most: set<Share>, stored: seq<Share>)
    requires config.scheme.PPLNS? && p.settled && Explained(p, b, config, index, seen) && seen <= most && NoTies(most, config.poolName)
    requires Distinct(stored) && Total(stored, None) >= Pplns.N_WINDOW
    requires forall s | s in stored :: s in seen && s.pool == config.poolName && s.created <= p.created
    ensures p.miners == 0.0
  {
    var visit :| IsReport(p, config, ToReward(b), index, seen, visit);
    if Payable(config, ToReward(b), index) {
      NoTiesNoStraddle(seen, config.poolName, b.created, PAGE_SIZE, visit);
      Pplns.StalledForGood(stored, Eligible(seen, config.poolName, b.created, true), PAGE_SIZE, visit, b.reward);
    }
  }

  /** Only blocks handed over in a turn can lose their saving in it. */
  lemma RefusedAreHanded(before: seq<Report>, after: seq<Report>, owed: set<nat>, refused: multiset<nat>, abandoned: multiset<nat>,
                         rows: map<nat, Found>, nowRefused: multiset<nat>, nowRows: map<nat, Found>, nodes: Nodes)
    requires Counted(before, {}, refused, abandoned, rows) && Counted(after, {}, nowRefused, abandoned, nowRows)
    requires HandedTo(before, after, owed) && Advanced(rows, nowRows, nodes)
    ensures OnceAtMost(refused, nowRefused, owed)
  {
    forall id ensures nowRefused[id] <= refused[id] + Unit(id in owed) {
      assert Handed(before, id) == Unit(IsConfirmed(rows, id)) + refused[id] + abandoned[id];
      assert Handed(after, id) == Unit(IsConfirmed(nowRows, id)) + nowRefused[id] + abandoned[id];
    }
  }

  lemma SavedToo<K, V>(rows: map<K, V>, saved: map<K, V>, k: K, v: V)
    ensures rows + saved[k := v] == (rows + saved)[k := v]
  {
  }

  lemma NothingSaved(refused: multiset<nat>, owed: set<nat>, blocks: map<nat, Found>, nodes: Nodes)
    ensures OnceAtMost(refused, refused, owed) && Advanced(blocks, blocks, nodes)
  {
  }

  /** A turn that rewards nothing. */
  lemma NothingHanded(reports: seq<Report>, refused: multiset<nat>, abandoned: multiset<nat>, blocks: map<nat, Found>, nodes: Nodes, active: map<string, nat>,
                      config: Config, rows: set<Share>, history: seq<Event>)
    ensures HandedTo(reports, reports, {}) && OnceAtMost(refused, refused, {}) && OnceMore(abandoned, abandoned, {})
    ensures Advanced(blocks, blocks, nodes)
    ensures AllJust(reports, |reports|, blocks, nodes, active, config, rows) && OnlyRewards(history, |history|)
  {
  }

  /** The events from `start` on are all rewards. */
  ghost predicate OnlyRewards(history: seq<Event>, start: nat) {
    |history| > start ==> history[|history| - 1].BlockRewarded? && OnlyRewards(history[..|history| - 1], start)
  }

  /** The events of one turn: rewards, then at most one payout. */
  ghost predicate IsTurn(history: seq<Event>, start: nat) {
    OnlyRewards(history, start) || PaidLast(history, start)
  }

  ghost predicate PaidLast(history: seq<Event>, start: nat) {
    |history| > start && history[|history| - 1].PayoutMade? && OnlyRewards(history[..|history| - 1], start)
  }

  lemma RewardsLast(history: seq<Event>, e: Event, start: nat)
    requires OnlyRewards(history, start)
    ensures e.BlockRewarded? ==> OnlyRewards(history + [e], start)
    ensures e.PayoutMade? && start <= |history| ==> PaidLast(history + [e], start)
  {
    assert (history + [e])[..|history|] == history;
  }

  /** The shares stored over a script. */
  function StoredIn(script: seq<Turn>): set<Share> {
    if script == [] then {} else StoredIn(script[..|script| - 1]) + script[|script| - 1].newShares
  }

  class PayoutManager {
    const config: Config
    const calls: Calls
    const balances: BalanceRepository
    const payments: PaymentRepository
    const shares: ShareRepository
    const found: FoundRepository
    const wallets: Wallets
    /** What happened so far. */
    ghost var history: seq<Event>
    /** The reports in it, one for each time a block was handed to the reward calculation. */
    ghost var reports: seq<Report>
    /** The blocks handed over in a turn that a panic ended before anything was saved. */
    ghost var abandoned: multiset<nat>

    predicate Wired() {
      balances.calls == calls && payments.calls == calls && shares.calls == calls && found.calls == calls && wallets.calls == calls
    }

    /** The log, the payments and the transfers are those of the history, entry by entry, and the
        balances are what the log adds up to. */
    ghost predicate Audited()
      reads this`history, this`reports, balances, payments`payments, wallets`transfers
    {
      && Wired() && balances.Reconciled()
      && balances.changes == LogOf(history) && reports == ReportsIn(history)
      && payments.payments == PaymentsIn(PayoutsIn(history)) && wallets.transfers == SendsIn(PayoutsIn(history))
      && IsHistory(history, balances.unposted, balances.thresholds, config, wallets.chains)
    }

    /** A failed call leaves at most one log entry unposted and disturbs at most one event. */
    ghost predicate Bounded()
      reads this`history, balances`unposted, calls`failed
    {
      |balances.unposted| <= calls.failed && Disturbed(history) <= calls.failed
    }

    ghost predicate Valid()
      reads this`history, this`reports, this`abandoned, balances, payments`payments, found, wallets`transfers, calls`failed
    {
      && Wired() && found.Valid() && Counted(reports, {}, found.refused, abandoned, found.blocks)
      && Audited() && Bounded() && (calls.failed == 0 ==> found.refused == multiset{})
    }

    constructor (config: Config, calls: Calls, balances: BalanceRepository, payments: PaymentRepository, shares: ShareRepository,
                 found: FoundRepository, wallets: Wallets)
      requires balances.Reconciled() && balances.changes == [] && payments.payments == [] && wallets.transfers == []
      requires found.Valid() && found.refused == multiset{} && forall id | id in found.blocks :: !found.blocks[id].status.Confirmed?
      requires balances.calls == payments.calls == shares.calls == found.calls == wallets.calls == calls
      ensures Valid() && history == [] && reports == [] && abandoned == multiset{}
      ensures this.config == config && this.calls == calls && this.balances == balances && this.payments == payments
      ensures this.shares == shares && this.found == found && this.wallets == wallets
    {
      this.config, this.calls, this.wallets := config, calls, wallets;
      this.balances, this.payments, this.shares, this.found := balances, payments, shares, found;
      history, reports, abandoned := [], [], multiset{};
      assert balances.unposted == {};
    }

    /** Adds the report of a block to the history. */
    ghost method NoteReward(report: Report, log: seq<Change>, missed: set<nat>, failed: nat)
      requires Wired() && log == LogOf(history) && reports == ReportsIn(history)
      requires IsHistory(history, missed, balances.thresholds, config, wallets.chains) && Disturbed(history) <= failed && |missed| <= failed
      requires payments.payments == PaymentsIn(PayoutsIn(history)) && wallets.transfers == SendsIn(PayoutsIn(history))
      requires balances.Reconciled() && balances.changes == log + report.entries && Conserved(report)
      requires failed <= calls.failed && Joined(missed, balances.unposted, |log|, calls.failed - failed)
      requires report.settled <==> calls.failed == failed
      modifies this`history, this`reports
      ensures Audited() && Bounded() && history == old(history) + [BlockRewarded(report)] && reports == old(reports) + [report]
    {
      HistoryGrows(history, BlockRewarded(report), missed, balances.unposted, calls.failed - failed, balances.thresholds, config, wallets.chains);
      RewardAdded(history, report);
      history, reports := history + [BlockRewarded(report)], reports + [report];
    }

    /** Every cutoff time is the zero time, and deleting shares before it deletes none. */
    method ClearOldShares(cutoffTime: nat)
      requires shares.calls == calls && cutoffTime == ZERO_TIME
      modifies shares, calls
      ensures shares.shares == old(shares.shares) && old(calls.failed) <= calls.failed
    {
      Pplns.NothingIsDeleted(shares.shares, config.poolName);
      var deleted := shares.DeleteSharesBefore(config.poolName, cutoffTime);
    }

    /** One turn of the reward loop: the calculation, then the deletion of shares up to a cutoff
        time that never cuts anything off. */
    method RewardOne(b: Found, index: nat, ghost owed: set<nat>) returns (panics: bool, ghost report: Report)
      requires Audited() && Bounded() && Counted(reports, owed, found.refused, abandoned, found.blocks) && b.id !in owed
      modifies this`history, this`reports, balances`balances, balances`changes, balances`unposted, shares, calls
      ensures Audited() && Bounded() && shares.shares == old(shares.shares) && old(calls.failed) <= calls.failed
      ensures panics <==> IndexPanics(config, ToReward(b), index)
      ensures Counted(reports, owed + {b.id}, found.refused, abandoned, found.blocks)
      ensures reports == old(reports) + [report] && history == old(history) + [BlockRewarded(report)]
      ensures Explained(report, b, config, index, shares.shares) && balances.changes == old(balances.changes) + report.entries
    {
      hide Counted, IsHistory, IsReport, Conserved, IndexPanics, Joined;
      ghost var visit;
      ghost var log, missed, failed := balances.changes, balances.unposted, calls.failed;
      var cutoffTime;
      cutoffTime, report, visit := CalculateBlockRewards(shares, balances, config, ToReward(b), index);
      ReportIsConserved(report, config, ToReward(b), index, shares.shares, visit);
      CountReward(reports, report, owed, found.refused, abandoned, found.blocks);
      NoteReward(report, log, missed, failed);
      assert report.id == b.id && report.created == b.created && report.reward == b.reward by {
        ReportNames(report, b, config, index, shares.shares, visit);
      }
      if cutoffTime.Panic? {
        return true, report;
      }
      if cutoffTime.Ok? {
        ClearOldShares(cutoffTime.value);
      }
      panics := false;
    }

    /** The reward loop over the confirmed blocks. An error leaves its block behind and goes on
        with the next. That every chain has its manager is known from the classification. */
    method RewardBlocks(blocks: seq<Found>, active: map<string, nat>) returns (panics: bool, ghost owed: set<nat>)
      requires Valid() && Fresh(blocks, found.blocks, active)
      modifies this`history, this`reports, balances`balances, balances`changes, balances`unposted, shares, calls
      ensures Audited() && Bounded() && shares.shares == old(shares.shares) && old(reports) <= reports && old(calls.failed) <= calls.failed
      ensures panics ==> exists b :: b in blocks && b.status.Confirmed? && IndexPanics(config, ToReward(b), active[b.chain])
      ensures Counted(reports, owed, found.refused, abandoned, found.blocks)
      ensures owed <= Unsaved(blocks, 0) && (!panics ==> owed == Unsaved(blocks, 0))
      ensures RewardsOf(reports, |old(reports)|, blocks, active, config, old(shares.shares))
      ensures old(history) <= history && OnlyRewards(history, |old(history)|)
    {
      var confirmed := FoundBlocks.GetConfirmed(blocks);
      ConfirmedMembers(blocks);
      AllHanded(blocks, confirmed);
      ghost var start, stored := |reports|, shares.shares;
      owed := {};
      for i := 0 to |confirmed|
        invariant Audited() && Bounded() && shares.shares == stored && old(reports) <= reports && old(calls.failed) <= calls.failed
        invariant Counted(reports, owed, found.refused, abandoned, found.blocks) && owed == FirstIds(confirmed, i)
        invariant RewardsOf(reports, start, blocks, active, config, stored)
        invariant old(history) <= history && OnlyRewards(history, |old(history)|)
      {
        ghost var before, was := reports, history;
        ghost var report;
        FirstIdsNext(confirmed, i);
        panics, report := RewardOne(confirmed[i], active[confirmed[i].chain], owed);
        RewardsNext(before, report, start, blocks, active, config, stored, confirmed[i]);
        RewardsLast(was, BlockRewarded(report), |old(history)|);
        owed := owed + {confirmed[i].id};
        if panics {
          FirstIdsWithin(confirmed, i + 1, |confirmed|);
          return;
        }
      }
      panics := false;
    }

    /** Saves one block. When that fails its row stays as it is, still pending, and the result of a
        confirmed block is lost. */
    method SaveOne(b: Found, ghost owed: set<nat>) returns (ok: bool)
      requires Wired() && found.Valid() && Counted(reports, owed, found.refused, abandoned, found.blocks)
      requires b.id in found.blocks && found.blocks[b.id].status.Pending? && Updated(found.blocks[b.id], b) == b
      requires b.id in owed <==> b.status.Confirmed?
      modifies found`blocks, found`refused, calls
      ensures found.Valid() && Counted(reports, owed - {b.id}, found.refused, abandoned, found.blocks)
      ensures calls.failed == old(calls.failed) + if ok then 0 else 1
      ensures found.refused == if ok then old(found.refused) else old(found.refused) + Loss(b)
      ensures found.blocks == if ok then old(found.blocks)[b.id := b] else old(found.blocks)
    {
      CountSave(reports, owed, found.refused, abandoned, found.blocks, b);
      ok := found.Update(b);
    }

    /** Saves every block. A failure is logged and the next block is saved. */
    method SaveBlocks(blocks: seq<Found>) returns (ghost saved: map<nat, Found>)
      requires Wired() && found.Valid()
      requires DistinctIds(blocks) && Counted(reports, Unsaved(blocks, 0), found.refused, abandoned, found.blocks)
      requires forall b | b in blocks :: b.id in found.blocks && found.blocks[b.id].status.Pending? && Updated(found.blocks[b.id], b) == b
      modifies found`blocks, found`refused, calls
      ensures found.Valid() && Counted(reports, {}, found.refused, abandoned, found.blocks)
      ensures old(calls.failed) <= calls.failed
      ensures calls.failed == old(calls.failed) ==> found.refused == old(found.refused) && forall b | b in blocks :: b.id in saved
      ensures found.blocks == old(found.blocks) + saved
      ensures forall id | id in saved :: saved[id].id == id && saved[id] in blocks
    {
      hide Counted, Updated;
      saved := map[];
      for i := 0 to |blocks|
        invariant found.Valid() && Counted(reports, Unsaved(blocks, i), found.refused, abandoned, found.blocks)
        invariant found.blocks == old(found.blocks) + saved
        invariant forall id | id in saved :: saved[id].id == id && saved[id] in blocks
        invariant forall j :: i <= j < |blocks| ==> blocks[j].id !in saved
        invariant old(calls.failed) <= calls.failed
        invariant calls.failed == old(calls.failed) ==> found.refused == old(found.refused) && forall j :: 0 <= j < i ==> blocks[j].id in saved
      {
        UnsavedNext(blocks, i);
        var ok := SaveOne(blocks[i], Unsaved(blocks, i));
        if ok {
          SavedToo(old(found.blocks), saved, blocks[i].id, blocks[i]);
          saved := saved[blocks[i].id := blocks[i]];
        }
      }
    }

    /** Gives up what is owed, when a panic ends the turn. */
    ghost method Abandon(owed: set<nat>)
      requires Counted(reports, owed, found.refused, abandoned, found.blocks)
      modifies this`abandoned
      ensures Counted(reports, {}, found.refused, abandoned, found.blocks) && OnceMore(old(abandoned), abandoned, owed)
    {
      CountLost(reports, owed, found.refused, abandoned, found.blocks);
      abandoned := abandoned + multiset(owed);
    }

    /** The middle of a turn: rewards for the blocks just confirmed, then every block saved. */
    method RewardAndSave(blocks: seq<Found>, nodes: Nodes, active: map<string, nat>) returns (panics: bool, ghost owed: set<nat>)
      requires Valid() && nodes.chains == active.Keys
      requires Classified(blocks, found.blocks, config.poolName, nodes) && Complete(blocks, found.blocks, config.poolName)
      modifies this`history, this`reports, this`abandoned
      modifies balances`balances, balances`changes, balances`unposted, shares, found`blocks, found`refused, calls
      ensures Valid() && shares.shares == old(shares.shares) && old(reports) <= reports && old(calls.failed) <= calls.failed
      ensures Advanced(old(found.blocks), found.blocks, nodes)
      ensures !panics && calls.failed == old(calls.failed) ==>
        FullyAdvanced(old(found.blocks), found.blocks, config.poolName, nodes) && found.refused == old(found.refused)
      ensures panics ==> NodePanics(old(found.blocks), nodes, active, config)
      ensures if panics then OnceMore(old(abandoned), abandoned, owed) else abandoned == old(abandoned)
      ensures owed <= Unsaved(blocks, 0) && (!panics ==> owed == Unsaved(blocks, 0)) && HandedTo(old(reports), reports, owed)
      ensures OnceAtMost(old(found.refused), found.refused, owed)
      ensures RewardsOf(reports, |old(reports)|, blocks, active, config, old(shares.shares))
      ensures old(history) <= history && OnlyRewards(history, |old(history)|)
    {
      hide Audited, Counted, Explained, RewardsOf, OnlyRewards, HandedTo, OnceMore, OnceAtMost;
      hide Classified, Complete, JustConfirmed, NodePanics, Advanced, FullyAdvanced, Unsaved;
      ghost var rows, before, refused := found.blocks, reports, found.refused;
      ClassifiedIsFresh(blocks, rows, config.poolName, nodes, active);
      panics, owed := RewardBlocks(blocks, active);
      OwedAreHanded(before, reports, owed, found.refused, abandoned, rows);
      if panics {
        Abandon(owed);
        NothingSaved(found.refused, owed, found.blocks, nodes);
        ghost var b :| b in blocks && b.status.Confirmed? && IndexPanics(config, ToReward(b), active[b.chain]);
        PanicsAtNode(b, blocks, rows, nodes, active, config);
        return;
      }
      ghost var saved := SaveBlocks(blocks);
      SavingAdvances(blocks, rows, config.poolName, nodes, saved);
      RefusedAreHanded(before, reports, owed, refused, abandoned, rows, found.refused, found.blocks, nodes);
      if calls.failed == old(calls.failed) {
        AllSaved(blocks, rows, config.poolName, nodes, saved);
      }
    }

    /** The first two thirds of a turn. When the blocks cannot be unlocked, nothing else happens. */
    method UnlockAndReward(nodes: Nodes, active: map<string, nat>) returns (panics: bool, unlocked: bool, ghost owed: set<nat>)
      requires Valid() && nodes.chains == active.Keys
      modifies this`history, this`reports, this`abandoned
      modifies balances`balances, balances`changes, balances`unposted, shares, found`blocks, found`refused, calls
      ensures Valid() && shares.shares == old(shares.shares) && old(reports) <= reports && old(calls.failed) <= calls.failed
      ensures Advanced(old(found.blocks), found.blocks, nodes)
      ensures panics ==> TransactionPanics(old(found.blocks), config.poolName, nodes) || NodePanics(old(found.blocks), nodes, active, config)
      ensures if panics then OnceMore(old(abandoned), abandoned, owed) else abandoned == old(abandoned)
      ensures owed <= JustConfirmed(old(found.blocks), config.poolName, nodes) && HandedTo(old(reports), reports, owed)
      ensures unlocked && !panics ==> owed == JustConfirmed(old(found.blocks), config.poolName, nodes)
      ensures !unlocked ==> owed == {} && history == old(history) && found.blocks == old(found.blocks)
      ensures OnceAtMost(old(found.refused), found.refused, owed)
      ensures AllJust(reports, |old(reports)|, old(found.blocks), nodes, active, config, old(shares.shares))
      ensures old(history) <= history && OnlyRewards(history, |old(history)|)
      ensures !panics && calls.failed == old(calls.failed) && Classifiable(old(found.blocks), config.poolName, nodes) ==>
        unlocked && FullyAdvanced(old(found.blocks), found.blocks, config.poolName, nodes) && found.refused == old(found.refused)
    {
      hide Audited, Counted, AllJust, RewardsOf, OnlyRewards, HandedTo, OnceAtMost, OnceMore, Advanced, FullyAdvanced;
      hide Classified, Complete, Classifiable, JustConfirmed, TransactionPanics, NodePanics, Unsaved;
      owed := {};
      NothingHanded(reports, found.refused, abandoned, found.blocks, nodes, active, config, shares.shares, history);
      var blocks := UnlockBlocks(found, config.poolName, nodes);
      if !blocks.Ok? {
        return blocks.Panic?, false, owed;
      }
      ghost var rows, stored := found.blocks, shares.shares;
      panics, owed := RewardAndSave(blocks.value, nodes, active);
      RewardsAreJust(reports, |old(reports)|, blocks.value, rows, nodes, active, config, stored);
      UnsavedAreConfirmed(blocks.value, rows, config.poolName, nodes);
      unlocked := true;
    }

    /** Adds a payout to the history. */
    ghost method NotePayout(p: Payout, finished: bool, rows: map<Account, real>, log: seq<Change>, missed: set<nat>, failed: nat)
      requires Wired() && log == LogOf(history) && reports == ReportsIn(history) && AddsUp(rows, log, missed)
      requires IsHistory(history, missed, balances.thresholds, config, wallets.chains) && Disturbed(history) <= failed && |missed| <= failed
      requires payments.payments == PaymentsIn(PayoutsIn(history)) + p.payments && wallets.transfers == SendsIn(PayoutsIn(history)) + p.sends
      requires balances.Reconciled() && balances.changes == log + p.entries
      requires failed <= calls.failed && Joined(missed, balances.unposted, |log|, calls.failed - failed)
      requires PayoutMeans(p, config.chainOrder, finished) && OnlyDue(p.batch, rows, balances.thresholds, config)
      requires finished ==> HoldsAllDue(p.batch, rows, balances.thresholds, config)
      requires calls.failed == failed && !finished ==> p.payments == [] && p.entries == []
      requires calls.failed == failed && Unrecorded(p) != [] ==> !HaveWallets(config, wallets.chains, rows, balances.thresholds)
      modifies this`history
      ensures Audited() && Bounded() && history == old(history) + [PayoutMade(p, finished, calls.failed == failed)]
    {
      ghost var e := PayoutMade(p, finished, calls.failed == failed);
      CollectedAreDue(p.batch, rows, log, missed, balances.thresholds, config);
      HistoryGrows(history, e, missed, balances.unposted, calls.failed - failed, balances.thresholds, config, wallets.chains);
      PayoutAdded(history, p, finished, calls.failed == failed);
      history := history + [e];
    }

    /** The end of a turn. The payout succeeds exactly when no call fails and every due balance can
        be paid, and then leaves nothing due; a payout that fails is logged and left. Unless a call
        failed or a due balance has no wallet, all that it sent is recorded. */
    method Pay() returns (panics: bool, ghost p: Payout, ghost finished: bool)
      requires Valid()
      modifies this`history, balances`balances, balances`changes, balances`unposted, payments, wallets, calls
      ensures Valid() && old(calls.failed) <= calls.failed
      ensures history == old(history) + [PayoutMade(p, finished, calls.failed == old(calls.failed))]
      ensures OnlyDue(p.batch, old(balances.balances), balances.thresholds, config)
      ensures balances.changes == old(balances.changes) + p.entries
      ensures finished <==> calls.failed == old(calls.failed) && CanPay(config, wallets.chains, old(balances.balances), balances.thresholds)
      ensures finished && DistinctChains(config.chainOrder) ==> NothingDue(balances.balances, balances.thresholds, config)
      ensures !finished && calls.failed == old(calls.failed) ==> balances.balances == old(balances.balances)
      ensures calls.failed == old(calls.failed) && HaveWallets(config, wallets.chains, old(balances.balances), balances.thresholds) ==>
        Unrecorded(p) == []
      ensures panics ==> !finished && AddressPanics(balances.balances, balances.thresholds, config)
    {
      hide Counted, IsHistory, Joined, PayoutMeans, PaysOwners, SendsAlong, IsWalk, Grouped, OnlyDue, HoldsAllDue, NothingDue, CanPay, HaveWallets, Resolved, AddressPanics;
      hide AddsUp, Below, LogOf, ReportsIn, PayoutsIn, PaymentsIn, SendsIn, Disturbed, Unrecorded, DistinctChains;
      ghost var walk;
      ghost var rows, log, missed, failed := balances.balances, balances.changes, balances.unposted, calls.failed;
      var r;
      r, p, walk := PayoutBalances(balances, payments, wallets, config);
      panics, finished := r.Panic?, r.Ok?;
      UnrecordedExactly(p, config.chainOrder, finished);
      NotePayout(p, finished, rows, log, missed, failed);
    }

    /** One turn of the endless loop. Errors are logged and the loop goes on; only a panic ends it.
        Whatever fails, what is final stays final, only blocks just confirmed are rewarded, each at
        most once, then at most one payout is made of balances due by the log, and no share is ever
        deleted. Unless a call fails or an answer is missing, every pending block advances and every
        block just confirmed is rewarded; and if then every due balance can be paid, nothing is left
        due. A panic needs a transaction without details, a node past the configured ones, or an
        address with too few parts. */
    method Iterate(nodes: Nodes, active: map<string, nat>) returns (panics: bool, ghost owed: set<nat>)
      requires Valid() && nodes.chains == active.Keys == wallets.chains
      modifies this`history, this`reports, this`abandoned, calls
      modifies balances`balances, balances`changes, balances`unposted, payments, shares, found`blocks, found`refused, wallets
      ensures Valid() && shares.shares == old(shares.shares) && old(reports) <= reports && old(calls.failed) <= calls.failed
      ensures old(history) <= history && IsTurn(history, |old(history)|)
      ensures Advanced(old(found.blocks), found.blocks, nodes)
      ensures AllJust(reports, |old(reports)|, old(found.blocks), nodes, active, config, old(shares.shares))
      ensures owed <= JustConfirmed(old(found.blocks), config.poolName, nodes) && HandedTo(old(reports), reports, owed)
      ensures forall id | id in owed :: IsPending(old(found.blocks), config.poolName, id) && Generated(old(found.blocks)[id], nodes)
      ensures abandoned == old(abandoned) || (panics && OnceMore(old(abandoned), abandoned, owed))
      ensures OnceAtMost(old(found.refused), found.refused, owed)
      ensures panics ==>
        || TransactionPanics(old(found.blocks), config.poolName, nodes) || NodePanics(old(found.blocks), nodes, active, config)
        || AddressPanics(balances.balances, balances.thresholds, config)
      ensures !panics ==> abandoned == old(abandoned) && (owed == {} || owed == JustConfirmed(old(found.blocks), config.poolName, nodes))
      ensures !panics && calls.failed == old(calls.failed) && Classifiable(old(found.blocks), config.poolName, nodes) ==>
        && FullyAdvanced(old(found.blocks), found.blocks, config.poolName, nodes)
        && owed == JustConfirmed(old(found.blocks), config.poolName, nodes) && found.refused == old(found.refused)
        && PaidLast(history, |old(history)|)
        && (DistinctChains(config.chainOrder) && CanPay(config, wallets.chains, balances.balances, balances.thresholds) ==>
              NothingDue(balances.balances, balances.thresholds, config))
    {
      hide Valid, AllJust, IsPending, Generated, HandedTo, OnceAtMost, OnceMore, Advanced, FullyAdvanced, Classifiable, JustConfirmed, OnlyRewards, PaidLast;
      hide TransactionPanics, NodePanics, AddressPanics, CanPay, NothingDue, OnlyDue, HaveWallets, Unrecorded;
      ghost var rows := found.blocks;
      ConfirmedAreGenerated(rows, config.poolName, nodes);
      var unlocked;
      panics, unlocked, owed := UnlockAndReward(nodes, active);
      if unlocked && !panics {
        ghost var p, finished;
        ghost var rewarded := history;
        panics, p, finished := Pay();
        RewardsLast(rewarded, history[|history| - 1], |old(history)|);
      }
    }

    /** What the rest of the pool stores between two turns: new pending blocks and new shares. */
    method Store(arrivals: seq<Found>, newShares: set<Share>)
      requires Valid() && forall b | b in arrivals :: b.status.Pending?
      modifies shares, found`blocks, found`nextId, calls
      ensures Valid() && shares.shares == old(shares.shares) + newShares && old(calls.failed) <= calls.failed
      ensures RowsKept(old(found.blocks), found.blocks)
    {
      hide Audited, Counted, RowsKept;
      shares.shares := shares.shares + newShares;
      RowsStay(found.blocks);
      for i := 0 to |arrivals|
        invariant Valid() && shares.shares == old(shares.shares) + newShares && old(calls.failed) <= calls.failed
        invariant RowsKept(old(found.blocks), found.blocks)
      {
        ghost var before, id := found.blocks, found.nextId;
        var stored := found.Insert(arrivals[i]);
        RowJoins(old(found.blocks), before, id, arrivals[i].(id := id), reports, found.refused, abandoned);
      }
    }

    /** A turn, after new blocks and shares came in. */
    method TakeTurn(t: Turn) returns (panics: bool)
      requires Valid() && t.nodes.chains == t.active.Keys == wallets.chains && forall b | b in t.arrivals :: b.status.Pending?
      modifies this`history, this`reports, this`abandoned, calls
      modifies balances`balances, balances`changes, balances`unposted, payments, shares, found, wallets
      ensures Valid() && old(history) <= history && old(reports) <= reports && old(calls.failed) <= calls.failed
      ensures shares.shares == old(shares.shares) + t.newShares && RowsKept(old(found.blocks), found.blocks)
      ensures !panics ==> abandoned == old(abandoned)
      ensures panics ==> |config.chainOrder| > 1 || !Steady(t, config)
      ensures AllAt(reports, |old(reports)|, t, config, found.blocks, shares.shares)
    {
      ghost var before, start := found.blocks, |reports|;
      Store(t.arrivals, t.newShares);
      ghost var rows, seen := found.blocks, shares.shares;
      ghost var owed;
      panics, owed := Iterate(t.nodes, t.active);
      AdvancedKeeps(before, rows, found.blocks, t.nodes);
      TurnRewards(reports, start, t, config, rows, found.blocks, seen);
      if panics {
        PanicsNeedCause(t, config, rows, balances.balances, balances.thresholds);
      }
    }

    /** Any number of turns. Of a block only status and reward ever change, and these no more once it
        is confirmed or orphaned; no share is lost; every report is about a block of the table, as some
        turn's answers confirmed it; and the books stay those of the history. */
    method RunManager(script: seq<Turn>) returns (panics: bool)
      requires Valid()
      requires forall t | t in script :: t.nodes.chains == t.active.Keys == wallets.chains && forall b | b in t.arrivals :: b.status.Pending?
      modifies this`history, this`reports, this`abandoned, calls
      modifies balances`balances, balances`changes, balances`unposted, payments, shares, found, wallets
      ensures Valid() && old(history) <= history && old(reports) <= reports && old(calls.failed) <= calls.failed
      ensures old(shares.shares) <= shares.shares && (!panics ==> shares.shares == old(shares.shares) + StoredIn(script))
      ensures RowsKept(old(found.blocks), found.blocks)
      ensures !panics ==> abandoned == old(abandoned)
      ensures panics ==> |config.chainOrder| > 1 || exists t :: t in script && !Steady(t, config)
      ensures AllIn(reports, |old(reports)|, script, config, found.blocks, old(shares.shares), shares.shares)
    {
      hide Valid, AllIn, AllAt, RowsKept, Steady;
      panics := false;
      RowsStay(found.blocks);
      NoneYet(reports, script, config, found.blocks, shares.shares);
      for i := 0 to |script|
        invariant Valid() && old(history) <= history && old(reports) <= reports && old(calls.failed) <= calls.failed
        invariant shares.shares == old(shares.shares) + StoredIn(script[..i]) && RowsKept(old(found.blocks), found.blocks)
        invariant !panics && abandoned == old(abandoned)
        invariant AllIn(reports, |old(reports)|, script, config, found.blocks, old(shares.shares), shares.shares)
      {
        assert script[..i + 1][..i] == script[..i];
        ghost var before, stored, rows := reports, shares.shares, found.blocks;
        panics := TakeTurn(script[i]);
        ReportsJoin(before, reports, |old(reports)|, script, script[i], config, rows, found.blocks, old(shares.shares), stored, shares.shares);
        KeptTwice(old(found.blocks), rows, found.blocks);
        if panics {
          return;
        }
      }
      assert script[..|script|] == script;
    }

    /** How often a block was handed over, exactly: once if it is saved as confirmed, and once more
        for every time its update failed or a panic came before it. So it is handed over at most
        once exactly when that makes at most one. */
    lemma AtMostOnce(id: nat)
      requires Valid()
      ensures Handed(reports, id) == Unit(IsConfirmed(found.blocks, id)) + found.refused[id] + abandoned[id]
      ensures (forall i, j :: 0 <= i < j < |reports| ==> !(reports[i].id == id == reports[j].id))
        <==> Unit(IsConfirmed(found.blocks, id)) + found.refused[id] + abandoned[id] <= 1
    {
      HandedRepeats(reports, id);
    }

    /** While the updates of confirmed blocks work and nothing panics, whatever other calls fail, no
        block is handed over twice, and the blocks handed over are exactly those saved as confirmed. */
    lemma HandedIsSaved()
      requires Valid() && found.refused == multiset{} && abandoned == multiset{}
      ensures forall i, j :: 0 <= i < j < |reports| ==> reports[i].id != reports[j].id
      ensures forall id :: IsConfirmed(found.blocks, id) <==> exists p :: p in reports && p.id == id
    {
      forall i, j | 0 <= i < j < |reports| ensures reports[i].id != reports[j].id {
        AtMostOnce(reports[i].id);
      }
      forall id ensures IsConfirmed(found.blocks, id) <==> exists p :: p in reports && p.id == id {
        HandedOnce(reports, id);
      }
    }

    /** Address by address, over any run with any failures: what the wallets sent, and the claims
        replaced in it, are the payment records and the claims sent without one. When no call failed
        and every chain of the order has a wallet, nothing is unrecorded; and when moreover no two
        balances of a payout share an address, each address was sent what the payments record. */
    lemma RunIsRecorded(chain: string, address: string)
      requires Valid()
      ensures var payouts, order := PayoutsIn(history), config.chainOrder;
        SentBy(wallets.transfers, chain, address) + ClaimTotal(ReplacedIn(payouts, order), order, chain, address)
        == PaidTo(payments.payments, chain, address) + ClaimTotal(UnrecordedIn(payouts), order, chain, address)
      ensures calls.failed == 0 && AllWallets(config, wallets.chains) ==> UnrecordedIn(PayoutsIn(history)) == []
      ensures calls.failed == 0 && AllWallets(config, wallets.chains) && NeverShared(PayoutsIn(history), config.chainOrder) ==>
        SentBy(wallets.transfers, chain, address) == PaidTo(payments.payments, chain, address)
    {
      SendsBalance(history, balances.unposted, balances.thresholds, config, wallets.chains, chain, address);
      if calls.failed == 0 && AllWallets(config, wallets.chains) {
        NothingUnrecorded(history, balances.unposted, balances.thresholds, config, wallets.chains);
        if NeverShared(PayoutsIn(history), config.chainOrder) {
          NothingReplaced(PayoutsIn(history), config.chainOrder);
        }
      }
    }

    /** The books over any run with any failures: the log credits what the reports say, the payments
        are the resets and the balances a failed call left unreset, and every balance is the sum of
        its log entries but for the unposted ones; of either there is at most one for each failed
        call. */
    lemma BooksBalance()
      requires Valid()
      ensures Credited(balances.changes) == Given(reports)
      ensures PaidOut(payments.payments) == Reset(balances.changes) + TotalAmount(UnresetIn(PayoutsIn(history)))
      ensures |UnresetIn(PayoutsIn(history))| <= calls.failed
      ensures forall a: Account :: balances.Amount(a) == Logged(balances.changes, balances.unposted, a)
      ensures Below(balances.unposted, |balances.changes|) && |balances.unposted| <= calls.failed
    {
      HistoryBalances(history, balances.unposted, balances.thresholds, config, wallets.chains);
      forall a: Account ensures balances.Amount(a) == Logged(balances.changes, balances.unposted, a) {
        assert Held(balances.balances, a) == Logged(balances.changes, balances.unposted, a);
      }
    }

    /** While no call fails, all that the blocks handed over earned is on the balances, was paid
        out, stayed with the nodes, or was given to nobody. */
    lemma MoneyIsConserved()
      requires Valid() && calls.failed == 0
      ensures Earned(reports) == Sum(balances.balances) + PaidOut(payments.payments) + Kept(reports)
    {
      BooksBalance();
      AllSettled(history, balances.unposted, balances.thresholds, config, wallets.chains);
      EarnedIsGivenOrKept(reports);
      forall a: Account ensures Get(balances.balances, a) == Logged(balances.changes, {}, a) {
        assert balances.Amount(a) == Logged(balances.changes, balances.unposted, a);
      }
      BalancesTotal(balances.balances, balances.changes);
    }
  }
}
