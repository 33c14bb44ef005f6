/** persistence/found.go: the blocks the pool has found. */
module FoundBlocks {
  import opened Outcomes
  import opened Ledger
  import opened Shares

  datatype Status = Pending | Orphaned | Confirmed

  /** The columns the payouts read or write. */
  datatype Found = Found(id: nat, pool: string, chain: string, height: nat, status: Status, confirmationData: string,
                         hash: string, reward: real, created: Time)

  /** The blocks of a list that are confirmed, in order. */
  function ConfirmedOf(blocks: seq<Found>): seq<Found> {
    if blocks == [] then []
    else
      var last := blocks[|blocks| - 1];
      ConfirmedOf(blocks[..|blocks| - 1]) + if last.status.Confirmed? then [last] else []
  }

  method GetConfirmed(blocks: seq<Found>) returns (confirmed: seq<Found>)
    ensures confirmed == ConfirmedOf(blocks)
  {
    confirmed := [];
    for i := 0 to |blocks|
      invariant confirmed == ConfirmedOf(blocks[..i])
    {
      assert blocks[..i + 1][..i] == blocks[..i];
      if blocks[i].status.Confirmed? {
        confirmed := confirmed + [blocks[i]];
      }
    }
    assert blocks[..|blocks|] == blocks;
  }

  ghost predicate DistinctIds(blocks: seq<Found>) {
    forall i, j :: 0 <= i < j < |blocks| ==> blocks[i].id != blocks[j].id
  }

  lemma {:induction false} ConfirmedMembers(blocks: seq<Found>)
    requires DistinctIds(blocks)
    ensures DistinctIds(ConfirmedOf(blocks))
    ensures forall b :: b in ConfirmedOf(blocks) <==> b in blocks && b.status.Confirmed?
  {
    if blocks != [] {
      var front, last := blocks[..|blocks| - 1], blocks[|blocks| - 1];
      ConfirmedMembers(front);
      assert blocks == front + [last];
    }
  }

  /** What the update query writes: every column but the ones below. */
  function Updated(row: Found, b: Found): Found {
    b.(id := row.id, pool := row.pool, chain := row.chain, confirmationData := row.confirmationData, created := row.created)
  }

  /** The result that is lost when the update of a block fails. */
  function Loss(b: Found): multiset<nat> {
    if b.status.Confirmed? then multiset{b.id} else multiset{}
  }

  class FoundRepository {
    const calls: Calls
    var blocks: map<nat, Found>
    /** Where the serial column of ids stands. */
    var nextId: nat
    /** The confirmed blocks whose update failed, once for each time. */
    ghost var refused: multiset<nat>

    ghost predicate Valid()
      reads this`blocks, this`nextId
    {
      forall id | id in blocks :: blocks[id].id == id && id < nextId
    }

    constructor (calls: Calls)
      ensures this.calls == calls && Valid() && blocks == map[] && refused == multiset{}
    {
      this.calls := calls;
      blocks, nextId, refused := map[], 1, multiset{};
    }

    /** A new block gets the next id, never one used before. */
    method Insert(block: Found) returns (ok: bool)
      requires Valid()
      modifies this`blocks, this`nextId, calls
      ensures calls.failed == old(calls.failed) + if ok then 0 else 1
      ensures Valid() && old(nextId) !in old(blocks)
      ensures blocks == if ok then old(blocks)[old(nextId) := block.(id := old(nextId))] else old(blocks)
      ensures nextId >= old(nextId)
    {
      ok := calls.Attempt();
      if ok {
        blocks := blocks[nextId := block.(id := nextId)];
        nextId := nextId + 1;
      }
    }

    method PendingBlocksForPool(pool: string) returns (r: Outcome<seq<Found>>)
      requires Valid()
      modifies calls
      ensures calls.failed == old(calls.failed) + if r.Ok? then 0 else 1
      ensures r.Ok? ==>
        && DistinctIds(r.value)
        && (forall b | b in r.value :: b.id in blocks && blocks[b.id] == b && b.pool == pool && b.status.Pending?)
        && (forall id | id in blocks :: blocks[id].pool == pool && blocks[id].status.Pending? ==> blocks[id] in r.value)
      ensures !r.Panic?
    {
      var works := calls.Attempt();
      if !works {
        return Err;
      }
      var pending: seq<Found> := [];
      var left := blocks.Keys;
      while left != {}
        invariant left <= blocks.Keys && DistinctIds(pending)
        invariant forall b | b in pending :: b.id in blocks && b.id !in left && blocks[b.id] == b && b.pool == pool && b.status.Pending?
        invariant forall id | id in blocks && id !in left :: blocks[id].pool == pool && blocks[id].status.Pending? ==> blocks[id] in pending
        decreases left
      {
        var id :| id in left;
        left := left - {id};
        if blocks[id].pool == pool && blocks[id].status.Pending? {
          pending := pending + [blocks[id]];
        }
      }
      return Ok(pending);
    }

    /** Fails on a database error or when no row has the id. */
    method Update(block: Found) returns (ok: bool)
      requires Valid()
      modifies this`blocks, this`refused, calls
      ensures Valid() && old(calls.failed) <= calls.failed <= old(calls.failed) + 1
      ensures ok <==> calls.failed == old(calls.failed) && block.id in old(blocks)
      ensures blocks == if ok then old(blocks)[block.id := Updated(old(blocks)[block.id], block)] else old(blocks)
      ensures refused == if ok then old(refused) else old(refused) + Loss(block)
      ensures ok ==>
        blocks == old(blocks)[block.id := old(blocks)[block.id].(
                                height := block.height, status := block.status, reward := block.reward, hash := block.hash)]
    {
      ok := calls.Attempt();
      if ok {
        ok := block.id in blocks;
        if ok {
          blocks := blocks[block.id := Updated(blocks[block.id], block)];
        }
      }
      if !ok {
        refused := refused + Loss(block);
      }
    }
  }
}
