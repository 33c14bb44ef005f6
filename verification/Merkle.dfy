/** bitcoin/merkle.go: the Merkle branch is computed once for a template, so that a share only
    has to fold its own coinbase hash through it. Double SHA-256 is the parameter `H`. */
module Merkle {
  import opened Outcomes
  import opened Bytes
  import opened Encoding

  // ---- The tree itself -------------------------------------------------------------

  /** The level above: neighbours hashed together, a last odd node hashed with itself. */
  function PairUp(H: Bytes -> Hash, level: seq<Bytes>): (up: seq<Bytes>)
    ensures |up| == (|level| + 1) / 2
  {
    if |level| == 0 then []
    else if |level| == 1 then [H(level[0] + level[0])]
    else [H(level[0] + level[1])] + PairUp(H, level[2..])
  }

  function Root(H: Bytes -> Hash, level: seq<Bytes>): Bytes
    requires |level| > 0
    decreases |level|
  {
    if |level| == 1 then level[0] else Root(H, PairUp(H, level))
  }

  /** The right-hand neighbours met on the way up from the leftmost leaf, whose own path is
      left out of every level. */
  function Branch(H: Bytes -> Hash, rest: seq<Bytes>): seq<Bytes>
    decreases |rest|
  {
    if rest == [] then [] else [rest[0]] + Branch(H, PairUp(H, rest[1..]))
  }

  function Fold(H: Bytes -> Hash, leaf: Bytes, steps: seq<Bytes>): Bytes
    decreases |steps|
  {
    if steps == [] then leaf else Fold(H, H(leaf + steps[0]), steps[1..])
  }

  /** Folding the leftmost leaf through its branch gives the root of the whole tree. */
  lemma {:induction false} FoldIsRoot(H: Bytes -> Hash, leaf: Bytes, rest: seq<Bytes>)
    ensures Fold(H, leaf, Branch(H, rest)) == Root(H, [leaf] + rest)
    decreases |rest|
  {
    if rest != [] {
      var up := PairUp(H, rest[1..]);
      var level := [leaf] + rest;
      FoldIsRoot(H, H(leaf + rest[0]), up);
      assert level[2..] == rest[1..] && level[1] == rest[0];
      assert Branch(H, rest)[1..] == Branch(H, up);
    }
  }

  function Pow2(n: nat): nat {
    if n == 0 then 1 else 2 * Pow2(n - 1)
  }

  /** One step for every halving of the leaf count: 2^(k-1) < n + 1 <= 2^k. */
  lemma {:induction false} BranchLength(H: Bytes -> Hash, rest: seq<Bytes>)
    ensures |rest| + 1 <= Pow2(|Branch(H, rest)|)
    ensures rest != [] ==> |Branch(H, rest)| > 0 && Pow2(|Branch(H, rest)| - 1) < |rest| + 1
    decreases |rest|
  {
    if rest != [] {
      BranchLength(H, PairUp(H, rest[1..]));
    }
  }

  /** A branch holds the second leaf and otherwise only digests. */
  lemma {:induction false} BranchSizes(H: Bytes -> Hash, rest: seq<Bytes>)
    requires forall i :: 0 <= i < |rest| ==> |rest[i]| == 32
    ensures forall i :: 0 <= i < |Branch(H, rest)| ==> |Branch(H, rest)[i]| == 32
    decreases |rest|
  {
    if rest != [] {
      PairUpSizes(H, rest[1..]);
      BranchSizes(H, PairUp(H, rest[1..]));
    }
  }

  lemma {:induction false} PairUpSizes(H: Bytes -> Hash, level: seq<Bytes>)
    ensures forall i :: 0 <= i < |PairUp(H, level)| ==> |PairUp(H, level)[i]| == 32
  {
    if |level| >= 2 {
      PairUpSizes(H, level[2..]);
    }
  }

  // ---- The code, on hexadecimal text -------------------------------------------------

  function JoinHex(H: Bytes -> Hash, one: string, two: string): Outcome<string> {
    var a :- OrErr(HexDecode(one));
    var b :- OrErr(HexDecode(two));
    Ok(HexEncode(H(a + b)))
  }

  function Prepend<T>(first: seq<T>, rest: Outcome<seq<T>>): Outcome<seq<T>> {
    if rest.Ok? then Ok(first + rest.value) else rest
  }

  function JoinLevel(H: Bytes -> Hash, level: seq<string>): (up: Outcome<seq<string>>)
    ensures up.Ok? ==> |up.value| == (|level| + 1) / 2
  {
    if |level| == 0 then Ok([])
    else if |level| == 1 then
      var joined :- JoinHex(H, level[0], level[0]);
      Ok([joined])
    else
      var joined :- JoinHex(H, level[0], level[1]);
      Prepend([joined], JoinLevel(H, level[2..]))
  }

  /** What `templateMerkleBranchSteps` returns. */
  function BranchHex(H: Bytes -> Hash, ids: seq<string>): Outcome<seq<string>>
    decreases |ids|
  {
    if ids == [] then Ok([])
    else
      var up :- JoinLevel(H, ids[1..]);
      Prepend([ids[0]], BranchHex(H, up))
  }

  lemma {:induction false} JoinLevelDuplicate(H: Bytes -> Hash, level: seq<string>)
    requires |level| % 2 == 1
    ensures JoinLevel(H, level + [level[|level| - 1]]) == JoinLevel(H, level)
  {
    var dup := level + [level[|level| - 1]];
    if |level| == 1 {
      assert dup[2..] == [] && dup[0] == dup[1] == level[0];
      assert JoinLevel(H, []) == Ok([]);
      assert forall x: seq<string> :: x + [] == x;
    } else {
      JoinLevelDuplicate(H, level[2..]);
      assert dup[2..] == level[2..] + [level[2..][|level| - 3]];
    }
  }

  lemma PrependStep<T>(first: seq<T>, x: T, rest: Outcome<seq<T>>)
    ensures Prepend(first, Prepend([x], rest)) == Prepend(first + [x], rest)
  {
    if rest.Ok? {
      assert first + ([x] + rest.value) == (first + [x]) + rest.value;
    }
  }

  lemma PrependNothing<T>(rest: Outcome<seq<T>>)
    ensures Prepend([], rest) == rest
  {
    if rest.Ok? {
      assert [] + rest.value == rest.value;
    }
  }

  lemma JoinLevelStep(H: Bytes -> Hash, level: seq<string>, i: nat)
    requires i + 1 < |level|
    ensures JoinLevel(H, level[i..]) ==
      var joined := JoinHex(H, level[i], level[i + 1]);
      if joined.Ok? then Prepend([joined.value], JoinLevel(H, level[i + 2..])) else joined.PropagateFailure()
  {
    assert level[i..][2..] == level[i + 2..];
  }

  method Join(H: Bytes -> Hash, one: string, two: string) returns (r: Outcome<string>)
    ensures r == JoinHex(H, one, two)
  {
    var oneBytes :- OrErr(HexDecode(one));
    var twoBytes :- OrErr(HexDecode(two));
    var merged := H(oneBytes + twoBytes);
    return Ok(HexEncode(merged));
  }

  /** The inner loop: joins the nodes two by two from `startJoinAt` on. The caller has made the
      number of nodes even, with `levelLength` the number before. */
  method JoinPairs(H: Bytes -> Hash, level: seq<string>, startJoinAt: nat, levelLength: nat, ghost pairs: nat)
    returns (r: Outcome<seq<string>>)
    requires startJoinAt == 2 <= |level| == 2 * pairs
    requires levelLength <= |level| <= levelLength + 1
    ensures r == JoinLevel(H, level[startJoinAt..])
  {
    var levelJoins: seq<string> := [];
    var i := startJoinAt;
    ghost var joinedPairs := 1;
    PrependNothing(JoinLevel(H, level[i..]));
    while i < levelLength
      invariant startJoinAt <= i == 2 * joinedPairs <= |level|
      invariant JoinLevel(H, level[startJoinAt..]) == Prepend(levelJoins, JoinLevel(H, level[i..]))
    {
      JoinLevelStep(H, level, i);
      var joined :- Join(H, level[i], level[i + 1]);
      PrependStep(levelJoins, joined, JoinLevel(H, level[i + 2..]));
      levelJoins := levelJoins + [joined];
      i := i + 2;
      joinedPairs := joinedPairs + 1;
    }
    assert i == |level|;
    assert level[i..] == [] && levelJoins + [] == levelJoins;
    return Ok(levelJoins);
  }

  method TemplateMerkleBranchSteps(H: Bytes -> Hash, transactionIDs: seq<string>) returns (r: Outcome<seq<string>>)
    ensures r == BranchHex(H, transactionIDs)
  {
    var steps: seq<string> := [];
    var levelLength := |transactionIDs|;
    if levelLength == 0 {
      return Ok(steps);
    }
    var startJoinAt := 2;
    var level := [""] + transactionIDs;
    levelLength := levelLength + 1;
    assert level[1..] == transactionIDs;
    PrependNothing(BranchHex(H, transactionIDs));

    while levelLength != 1
      invariant |level| == levelLength >= 1
      invariant BranchHex(H, transactionIDs) == Prepend(steps, BranchHex(H, level[1..]))
      decreases levelLength
    {
      ghost var rest := level[1..];
      assert rest[1..] == level[2..];
      ghost var before := steps;
      steps := steps + [level[1]];

      ghost var pairs := levelLength / 2;
      if levelLength % 2 == 1 {
        pairs := pairs + 1;
        JoinLevelDuplicateRest(H, level);
        level := level + [level[|level| - 1]];
      }
      assert JoinLevel(H, level[2..]) == JoinLevel(H, rest[1..]);
      var levelJoins :- JoinPairs(H, level, startJoinAt, levelLength, pairs);
      PrependStep(before, rest[0], BranchHex(H, levelJoins));
      level := [""] + levelJoins;
      levelLength := |level|;
      assert level[1..] == levelJoins;
    }
    assert level[1..] == [] && steps + [] == steps;
    return Ok(steps);
  }

  lemma JoinLevelDuplicateRest(H: Bytes -> Hash, level: seq<string>)
    requires |level| % 2 == 1 && |level| > 2
    ensures JoinLevel(H, (level + [level[|level| - 1]])[2..]) == JoinLevel(H, level[1..][1..])
  {
    JoinLevelDuplicate(H, level[2..]);
    assert (level + [level[|level| - 1]])[2..] == level[2..] + [level[2..][|level| - 3]];
    assert level[1..][1..] == level[2..];
  }

  /** What `makeHeaderMerkleRoot` returns once its first argument is decoded. */
  function FoldHex(H: Bytes -> Hash, block: Bytes, steps: seq<string>): Outcome<string>
    decreases |steps|
  {
    if steps == [] then Ok(HexEncode(block))
    else
      var branch :- OrErr(HexDecode(steps[0]));
      FoldHex(H, H(block + branch), steps[1..])
  }

  function HeaderRootHex(H: Bytes -> Hash, coinbase: string, steps: seq<string>): Outcome<string> {
    var block :- OrErr(HexDecode(coinbase));
    FoldHex(H, block, steps)
  }

  method MakeHeaderMerkleRoot(H: Bytes -> Hash, coinbase: string, merkleBranchSteps: seq<string>)
    returns (r: Outcome<string>)
    ensures r == HeaderRootHex(H, coinbase, merkleBranchSteps)
  {
    var block :- OrErr(HexDecode(coinbase));
    for i := 0 to |merkleBranchSteps|
      invariant HeaderRootHex(H, coinbase, merkleBranchSteps) == FoldHex(H, block, merkleBranchSteps[i..])
    {
      assert merkleBranchSteps[i..][1..] == merkleBranchSteps[i + 1..];
      var branchBytes :- OrErr(HexDecode(merkleBranchSteps[i]));
      block := H(block + branchBytes);
    }
    return Ok(HexEncode(block));
  }

  /** The node text made of a transaction id; the error on an odd length is dropped. */
  function NodeText(id: string): string {
    if |id| % 2 == 0 then ReverseBlocks(id, 2) else ""
  }

  function NodeTexts(ids: seq<string>): (r: seq<string>)
    ensures |r| == |ids| && forall i :: 0 <= i < |ids| ==> r[i] == NodeText(ids[i])
  {
    seq(|ids|, i requires 0 <= i < |ids| => NodeText(ids[i]))
  }

  method MerkleSteps(H: Bytes -> Hash, ids: seq<string>) returns (r: Outcome<seq<string>>)
    ensures r == BranchHex(H, NodeTexts(ids))
  {
    var transactionIDs := new string[|ids|](_ => "");
    for i := 0 to |ids|
      invariant forall j :: 0 <= j < i ==> transactionIDs[j] == NodeText(ids[j])
    {
      var idReversed := ReverseHexBytes(ids[i]);
      transactionIDs[i] := if idReversed.Ok? then idReversed.value else "";
    }
    assert transactionIDs[..] == NodeTexts(ids);
    r := TemplateMerkleBranchSteps(H, transactionIDs[..]);
  }

  // ---- The code computes the tree -----------------------------------------------------

  ghost predicate AllDecode(texts: seq<string>) {
    forall i :: 0 <= i < |texts| ==> HexDecode(texts[i]).Some?
  }

  function DecodeAll(texts: seq<string>): (r: seq<Bytes>)
    requires AllDecode(texts)
    ensures |r| == |texts| && forall i :: 0 <= i < |texts| ==> r[i] == HexDecode(texts[i]).value
  {
    seq(|texts|, i requires 0 <= i < |texts| => HexDecode(texts[i]).value)
  }

  lemma AllDecodeCons(texts: seq<string>)
    requires texts != []
    ensures AllDecode(texts) <==> HexDecode(texts[0]).Some? && AllDecode(texts[1..])
    ensures AllDecode(texts) ==> DecodeAll(texts) == [HexDecode(texts[0]).value] + DecodeAll(texts[1..])
  {
    var t := texts[1..];
    assert forall i :: 1 <= i < |texts| ==> texts[i] == t[i - 1];
  }

  lemma JoinHexIs(H: Bytes -> Hash, one: string, two: string)
    ensures JoinHex(H, one, two).Ok? <==> HexDecode(one).Some? && HexDecode(two).Some?
    ensures !JoinHex(H, one, two).Panic?
    ensures JoinHex(H, one, two).Ok? ==>
      HexDecode(JoinHex(H, one, two).value) == Some(H(HexDecode(one).value + HexDecode(two).value))
  {
    if HexDecode(one).Some? && HexDecode(two).Some? {
      DecodeEncode(H(HexDecode(one).value + HexDecode(two).value));
    }
  }

  lemma DecodeRest(texts: seq<string>, k: nat)
    requires AllDecode(texts) && k <= |texts|
    ensures AllDecode(texts[k..]) && DecodeAll(texts[k..]) == DecodeAll(texts)[k..]
  {
  }

  lemma DecodeFirst(text: string, texts: seq<string>)
    requires HexDecode(text).Some? && AllDecode(texts)
    ensures AllDecode([text] + texts) && DecodeAll([text] + texts) == [HexDecode(text).value] + DecodeAll(texts)
  {
  }

  lemma JoinLevelFirst(H: Bytes -> Hash, level: seq<string>, rest: seq<string>)
    requires |level| >= 2 && AllDecode(level) && AllDecode(level[2..])
    requires JoinLevel(H, level[2..]) == Ok(rest) && AllDecode(rest) && DecodeAll(rest) == PairUp(H, DecodeAll(level[2..]))
    ensures JoinLevel(H, level).Ok? && AllDecode(JoinLevel(H, level).value)
    ensures DecodeAll(JoinLevel(H, level).value) == PairUp(H, DecodeAll(level))
  {
    JoinHexIs(H, level[0], level[1]);
    DecodeRest(level, 2);
    DecodeFirst(JoinHex(H, level[0], level[1]).value, rest);
    assert JoinLevel(H, level) == Ok([JoinHex(H, level[0], level[1]).value] + rest);
  }

  lemma {:induction false} JoinLevelIsPairUp(H: Bytes -> Hash, level: seq<string>)
    ensures JoinLevel(H, level).Ok? <==> AllDecode(level)
    ensures JoinLevel(H, level).Err? <==> !AllDecode(level)
    ensures AllDecode(level) ==>
      AllDecode(JoinLevel(H, level).value) && DecodeAll(JoinLevel(H, level).value) == PairUp(H, DecodeAll(level))
  {
    if |level| == 1 {
      JoinHexIs(H, level[0], level[0]);
    } else if |level| >= 2 {
      JoinLevelIsPairUp(H, level[2..]);
      JoinHexIs(H, level[0], level[1]);
      AllDecodeCons(level);
      AllDecodeCons(level[1..]);
      assert level[1..][1..] == level[2..];
      if AllDecode(level) {
        JoinLevelFirst(H, level, JoinLevel(H, level[2..]).value);
      }
    }
  }

  /** The branch computation fails exactly when a transaction after the first does not decode;
      the first one is copied unread. */
  lemma {:induction false} BranchHexIsBranch(H: Bytes -> Hash, ids: seq<string>)
    ensures BranchHex(H, ids).Ok? <==> ids == [] || AllDecode(ids[1..])
    ensures BranchHex(H, ids).Err? <==> !BranchHex(H, ids).Ok?
    ensures AllDecode(ids) ==>
      AllDecode(BranchHex(H, ids).value) && DecodeAll(BranchHex(H, ids).value) == Branch(H, DecodeAll(ids))
    ensures BranchHex(H, ids).Ok? && ids != [] ==>
      BranchHex(H, ids).value != [] && BranchHex(H, ids).value[0] == ids[0]
    decreases |ids|
  {
    if ids != [] {
      var t := ids[1..];
      JoinLevelIsPairUp(H, t);
      AllDecodeCons(ids);
      if AllDecode(t) {
        var up := JoinLevel(H, t).value;
        BranchHexIsBranch(H, up);
        AllDecodeTail(up);
        var all := BranchHex(H, ids).value;
        assert all == [ids[0]] + BranchHex(H, up).value && all[1..] == BranchHex(H, up).value;
        AllDecodeCons(all);
      }
    }
  }

  lemma AllDecodeTail(texts: seq<string>)
    requires AllDecode(texts)
    ensures texts == [] || AllDecode(texts[1..])
  {
  }

  lemma {:induction false} FoldHexIsFold(H: Bytes -> Hash, block: Bytes, steps: seq<string>)
    ensures FoldHex(H, block, steps).Ok? <==> AllDecode(steps)
    ensures FoldHex(H, block, steps).Panic? ==> false
    ensures AllDecode(steps) ==> FoldHex(H, block, steps) == Ok(HexEncode(Fold(H, block, DecodeAll(steps))))
    decreases |steps|
  {
    if steps != [] {
      var t := steps[1..];
      AllDecodeCons(steps);
      if HexDecode(steps[0]).Some? {
        FoldHexIsFold(H, H(block + HexDecode(steps[0]).value), t);
        if AllDecode(steps) {
          assert DecodeAll(steps)[1..] == DecodeAll(t);
          assert DecodeAll(steps)[0] == HexDecode(steps[0]).value;
        }
      }
    }
  }

  /** The Merkle root the pool puts in a header, for any coinbase hash and any list of node
      texts: it exists exactly when everything decodes, and then it is the root of the full
      tree over the coinbase followed by the transactions. */
  lemma HeaderRootIsTreeRoot(H: Bytes -> Hash, coinbase: string, ids: seq<string>)
    ensures BranchHex(H, ids).Ok? && HeaderRootHex(H, coinbase, BranchHex(H, ids).value).Ok?
      <==> HexDecode(coinbase).Some? && AllDecode(ids)
    ensures HexDecode(coinbase).Some? && AllDecode(ids) ==>
      HeaderRootHex(H, coinbase, BranchHex(H, ids).value)
        == Ok(HexEncode(Root(H, [HexDecode(coinbase).value] + DecodeAll(ids))))
  {
    BranchHexIsBranch(H, ids);
    if BranchHex(H, ids).Ok? && HexDecode(coinbase).Some? {
      var steps, block := BranchHex(H, ids).value, HexDecode(coinbase).value;
      FoldHexIsFold(H, block, steps);
      if AllDecode(ids) {
        FoldIsRoot(H, block, DecodeAll(ids));
      } else {
        AllDecodeCons(ids);
        assert !AllDecode(steps);
      }
    }
  }

  lemma NodeTextDecodes(id: string)
    ensures HexDecode(NodeText(id)).Some? <==> |id| % 2 == 1 || HexDecode(id).Some?
    ensures |id| % 2 == 1 ==> NodeText(id) == ""
    ensures |id| % 2 == 0 && HexDecode(id).Some? ==> HexDecode(NodeText(id)) == Some(Reverse(HexDecode(id).value))
  {
    if |id| % 2 == 0 {
      WholePairs(id);
      ReverseBlocksTwice(id, 2);
      if HexDecode(id).Some? {
        ReversePairsDecodes(id);
      } else if HexDecode(ReverseBlocks(id, 2)).Some? {
        ReversePairsDecodes(ReverseBlocks(id, 2));
      }
    }
  }

  /** Every other id stands in the tree with its bytes turned round. A transaction id of odd length is
      not refused: wherever it stands it becomes an empty node.
      The steps fail exactly when an id of even length after the first is no hexadecimal text. */
  lemma OddIdsAreEmptyNodes(H: Bytes -> Hash, ids: seq<string>)
    ensures forall i | 0 <= i < |ids| && |ids[i]| % 2 == 1 :: NodeTexts(ids)[i] == ""
    ensures forall i | 0 <= i < |ids| && |ids[i]| % 2 == 0 && HexDecode(ids[i]).Some? ::
      HexDecode(NodeTexts(ids)[i]) == Some(Reverse(HexDecode(ids[i]).value))
    ensures !BranchHex(H, NodeTexts(ids)).Panic?
    ensures BranchHex(H, NodeTexts(ids)).Err? <==> exists i :: 1 <= i < |ids| && |ids[i]| % 2 == 0 && HexDecode(ids[i]).None?
  {
    var texts := NodeTexts(ids);
    BranchHexIsBranch(H, texts);
    forall i | 0 <= i < |ids|
      ensures HexDecode(texts[i]).Some? <==> |ids[i]| % 2 == 1 || HexDecode(ids[i]).Some?
      ensures |ids[i]| % 2 == 1 ==> texts[i] == ""
      ensures |ids[i]| % 2 == 0 && HexDecode(ids[i]).Some? ==> HexDecode(texts[i]) == Some(Reverse(HexDecode(ids[i]).value))
    {
      NodeTextDecodes(ids[i]);
    }
    if texts != [] {
      TailDecodes(texts);
    }
  }

  lemma TailDecodes(texts: seq<string>)
    requires texts != []
    ensures AllDecode(texts[1..]) <==> forall i :: 1 <= i < |texts| ==> HexDecode(texts[i]).Some?
  {
    if forall i :: 1 <= i < |texts| ==> HexDecode(texts[i]).Some? {
      assert forall i :: 0 <= i < |texts| - 1 ==> texts[1..][i] == texts[i + 1];
    }
    if AllDecode(texts[1..]) {
      forall i | 1 <= i < |texts| ensures HexDecode(texts[i]).Some? {
        assert texts[1..][i - 1] == texts[i];
      }
    }
  }
}
