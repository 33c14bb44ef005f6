/** bitcoin/auxpow.go: the proof that lets another chain accept the parent chain's work. */
module AuxPowProof {
  import opened Outcomes
  import opened Bytes
  import opened Encoding
  import opened Templates
  import opened Merkle
  import opened Coinbase
  import opened Headers
  import opened Generator
  import opened Submission
  import Format = BlockFormat
  import CompactSize

  datatype ParentMerkleBranch = ParentMerkleBranch(length: nat, items: seq<string>, mask: string)

  datatype AuxMerkleBranch = AuxMerkleBranch(numberOfBranches: string, mask: string)

  datatype AuxPow = AuxPow(
    parentCoinbase: string,
    parentHeaderHash: string,
    parentMerkleBranch: ParentMerkleBranch,
    auxMerkleBranch: AuxMerkleBranch,
    parentHeaderUnhashed: string)

  function AuxPowOf(coinbase: string, hash: string, steps: seq<string>, header: string): AuxPow {
    AuxPow(coinbase, hash, ParentMerkleBranch(|steps|, steps, "00000000"), AuxMerkleBranch("00", "00000000"), header)
  }

  /** Panics unless `Sum` has set the block's hash. */
  method MakeAuxPow(parentBlock: BitcoinBlock) returns (r: Outcome<AuxPow>)
    ensures r == if parentBlock.hash == "" then Panic
                 else Ok(AuxPowOf(parentBlock.coinbase, parentBlock.hash, parentBlock.merkleSteps, parentBlock.header))
  {
    if parentBlock.hash == "" {
      return Panic;
    }
    var items := parentBlock.merkleSteps;
    return Ok(AuxPow(parentBlock.coinbase, parentBlock.hash, ParentMerkleBranch(|items|, items, "00000000"),
                     AuxMerkleBranch("00", "00000000"), parentBlock.header));
  }

  function Concat(items: seq<string>): string {
    Format.Flatten(items)
  }

  function BranchText(pm: ParentMerkleBranch): Outcome<string> {
    var length :- VarUintHex(pm.length);
    Ok(length + Concat(pm.items) + pm.mask)
  }

  method SerializeBranch(pm: ParentMerkleBranch) returns (r: Outcome<string>)
    ensures r == BranchText(pm)
  {
    var items := "";
    for i := 0 to |pm.items|
      invariant items == Concat(pm.items[..i])
    {
      FlattenLast(pm.items[..i], pm.items[i]);
      assert pm.items[..i + 1] == pm.items[..i] + [pm.items[i]];
      items := items + pm.items[i];
    }
    assert pm.items[..|pm.items|] == pm.items;
    var length :- VarUintHex(pm.length);
    return Ok(length + items + pm.mask);
  }

  function AuxBranchText(am: AuxMerkleBranch): string {
    am.numberOfBranches + am.mask
  }

  function AuxPowText(p: AuxPow): Outcome<string> {
    var branch :- BranchText(p.parentMerkleBranch);
    Ok(p.parentCoinbase + p.parentHeaderHash + branch + AuxBranchText(p.auxMerkleBranch) + p.parentHeaderUnhashed)
  }

  method Serialize(p: AuxPow) returns (r: Outcome<string>)
    ensures r == AuxPowText(p)
  {
    var branch :- SerializeBranch(p.parentMerkleBranch);
    return Ok(p.parentCoinbase + p.parentHeaderHash + branch + AuxBranchText(p.auxMerkleBranch) + p.parentHeaderUnhashed);
  }

  // ---- What a verifier does with the proof -------------------------------------------------

  /** The merged mining rule for a Merkle branch: bit k of the index says on which side the
      k-th neighbour stands. */
  function CheckBranch(H: Bytes -> Hash, hash: Bytes, branch: seq<Bytes>, index: nat): Bytes
    decreases |branch|
  {
    if branch == [] then hash
    else CheckBranch(H, if index % 2 == 0 then H(hash + branch[0]) else H(branch[0] + hash), branch[1..], index / 2)
  }

  lemma {:induction false} CheckAtZeroIsFold(H: Bytes -> Hash, hash: Bytes, branch: seq<Bytes>)
    ensures CheckBranch(H, hash, branch, 0) == Fold(H, hash, branch)
    decreases |branch|
  {
    if branch != [] {
      CheckAtZeroIsFold(H, H(hash + branch[0]), branch[1..]);
    }
  }

  lemma {:induction false} ConcatSpells(items: seq<string>)
    requires AllDecode(items)
    ensures Spells(Concat(items), Format.Flatten(DecodeAll(items)))
  {
    if items != [] {
      AllDecodeCons(items);
      ConcatSpells(items[1..]);
      SpellsAppend(items[0], HexDecode(items[0]).value, Concat(items[1..]), Format.Flatten(DecodeAll(items[1..])));
      assert DecodeAll(items)[1..] == DecodeAll(items[1..]);
    }
  }

  lemma BranchTextSpells(steps: seq<string>)
    requires AllDecode(steps) && Streamable(|steps|)
    requires forall i :: 0 <= i < |steps| ==> |DecodeAll(steps)[i]| == 32
    ensures Format.WellFormedBranch(DecodeAll(steps), 0)
    ensures BranchText(ParentMerkleBranch(|steps|, steps, "00000000")).Ok?
    ensures Spells(BranchText(ParentMerkleBranch(|steps|, steps, "00000000")).value, Format.BranchBytes(DecodeAll(steps), 0))
  {
    VarUintSpells(|steps|);
    ConcatSpells(steps);
    FourBytes();
    var length := VarUintHex(|steps|).value;
    SpellsAppend(length, CompactSize.Write(|steps|), Concat(steps), Format.Flatten(DecodeAll(steps)));
    SpellsAppend(length + Concat(steps), CompactSize.Write(|steps|) + Format.Flatten(DecodeAll(steps)), "00000000", LE(0, 4));
  }

  lemma EmptyBranchSpells()
    ensures Format.WellFormedBranch([], 0)
    ensures Spells(AuxBranchText(AuxMerkleBranch("00", "00000000")), Format.BranchBytes([], 0))
  {
    FourBytes();
    PairSpells(0, 0);
    SpellsAppend("00", [0], "00000000", LE(0, 4));
    assert Format.Flatten<byte>([]) == [];
    assert CompactSize.Write(0) + [] == [0];
  }

  lemma AuxPowSpells(p: AuxPow, a: Format.AuxPow, branch: string)
    requires Format.WellFormedAuxPow(a)
    requires Spells(p.parentCoinbase, Format.TxBytes(a.coinbase)) && Spells(p.parentHeaderHash, a.parentHash)
    requires BranchText(p.parentMerkleBranch) == Ok(branch) && Spells(branch, Format.BranchBytes(a.branch, a.index))
    requires Spells(AuxBranchText(p.auxMerkleBranch), Format.BranchBytes(a.chainBranch, a.chainIndex))
    requires Spells(p.parentHeaderUnhashed, Format.HeaderBytes(a.parent))
    ensures AuxPowText(p).Ok? && Spells(AuxPowText(p).value, Format.AuxPowBytes(a))
  {
    var b1 := Format.TxBytes(a.coinbase) + a.parentHash;
    SpellsAppend(p.parentCoinbase, Format.TxBytes(a.coinbase), p.parentHeaderHash, a.parentHash);
    var s1 := p.parentCoinbase + p.parentHeaderHash;
    SpellsAppend(s1, b1, branch, Format.BranchBytes(a.branch, a.index));
    var s2, b2 := s1 + branch, b1 + Format.BranchBytes(a.branch, a.index);
    SpellsAppend(s2, b2, AuxBranchText(p.auxMerkleBranch), Format.BranchBytes(a.chainBranch, a.chainIndex));
    SpellsAppend(s2 + AuxBranchText(p.auxMerkleBranch), b2 + Format.BranchBytes(a.chainBranch, a.chainIndex),
                 p.parentHeaderUnhashed, Format.HeaderBytes(a.parent));
  }

  lemma AuxPowReads(p: AuxPow, a: Format.AuxPow)
    requires Format.WellFormedAuxPow(a)
    requires AuxPowText(p).Ok? && Spells(AuxPowText(p).value, Format.AuxPowBytes(a))
    ensures Format.ReadAuxPow(HexDecode(AuxPowText(p).value).value) == Some((a, []))
  {
    Format.AuxPowFront(a, []);
    assert Format.AuxPowBytes(a) + [] == Format.AuxPowBytes(a);
  }

  /** The texts a block holds after `MakeHeader` and `Sum`. */
  ghost function ProofOf(H: Bytes -> Hash, scrypt: Bytes -> Hash, t: Template, job: Job,
                         extranonce: string, nonce: string, nonceTime: string): AuxPow
    requires HeaderText(H, t, job, extranonce, nonce, nonceTime).Ok?
    requires HexDecode(HeaderText(H, t, job, extranonce, nonce, nonceTime).value).Some?
  {
    var header := HeaderText(H, t, job, extranonce, nonce, nonceTime).value;
    AuxPowOf(CoinbaseText(job, extranonce), HexEncode(Reverse(scrypt(HexDecode(header).value))), job.merkleSteps, header)
  }

  /** From a share to the text of its proof: the header is made and hashed, and what the block then
      holds is put together. */
  method ProveWork(block: BitcoinBlock, extranonce: string, nonce: string, nonceTime: string) returns (r: Outcome<string>)
    requires block.template.Some?
    modifies block`coinbase, block`header, block`hash
    ensures
      var t, job := block.template.value, block.CurrentJob();
      var header := HeaderText(block.H, t, job, extranonce, nonce, nonceTime);
      if !header.Ok? then !r.Ok?
      else HexDecode(header.value).Some? && r == AuxPowText(ProofOf(block.H, block.scrypt, t, job, extranonce, nonce, nonceTime))
  {
    var header :- block.MakeHeader(extranonce, nonce, nonceTime);
    HeaderHasText(block.H, block.template.value, block.CurrentJob(), extranonce, nonce, nonceTime);
    var sum := block.Sum();
    var proof := MakeAuxPow(block);
    r := Serialize(proof.value);
  }

  /** The steps of a job are the branch of its tree, 32 bytes each. */
  lemma StepsAreBranch(H: Bytes -> Hash, t: Template, job: Job)
    requires BranchHex(H, NodeTexts(Ids(t))) == Ok(job.merkleSteps)
    requires IdsDecode(t, 0) && forall n | n in TreeNodes(t) :: |n| == 32
    ensures AllDecode(job.merkleSteps)
    ensures DecodeAll(job.merkleSteps) == Branch(H, TreeNodes(t))
    ensures forall i :: 0 <= i < |job.merkleSteps| ==> |DecodeAll(job.merkleSteps)[i]| == 32
  {
    NodesAreIds(t);
    BranchHexIsBranch(H, NodeTexts(Ids(t)));
    BranchSizes(H, TreeNodes(t));
  }

  /** The proof is self-consistent. A verifier that parses it finds the coinbase, the digest of
      the parent header, the branch, both zero masks and the parent header; and the branch
      leads from the coinbase's hash to the Merkle root inside that header. */
  lemma AuxPowRoundTrip(H: Bytes -> Hash, scrypt: Bytes -> Hash, t: Template, arbitrary: Bytes, pubScriptKey: string,
                        reserved: nat, job: Job, extranonce: string, nonce: string, nonceTime: string, size: Bytes -> Option<nat>)
    returns (proof: Format.AuxPow)
    requires MakeJob(H, t, arbitrary, pubScriptKey, reserved) == Ok(job)
    requires WellSized(t, pubScriptKey, size) && ShareSizes(extranonce, reserved, nonce, nonceTime)
    requires Streamable(|job.merkleSteps|)
    requires forall n | n in TreeNodes(t) :: |n| == 32
    ensures WellFormedCoinbase(t, pubScriptKey, arbitrary, extranonce)
    ensures proof.coinbase == BlockCoinbase(t, pubScriptKey, arbitrary, extranonce)
    ensures proof.parent == BlockHeaderOf(H, t, Format.TxBytes(proof.coinbase), nonce, nonceTime)
    ensures proof.parentHash == Reverse(scrypt(Format.HeaderBytes(proof.parent)))
    ensures proof.branch == Branch(H, TreeNodes(t))
    ensures proof.index == 0 && proof.chainBranch == [] && proof.chainIndex == 0
    ensures HeaderText(H, t, job, extranonce, nonce, nonceTime).Ok?
    ensures HexDecode(HeaderText(H, t, job, extranonce, nonce, nonceTime).value).Some?
    ensures var text := AuxPowText(ProofOf(H, scrypt, t, job, extranonce, nonce, nonceTime));
      text.Ok? && HexDecode(text.value).Some?
      && Format.ReadAuxPow(HexDecode(text.value).value) == Some((proof, []))
    ensures CheckBranch(H, H(Format.TxBytes(proof.coinbase)), proof.branch, proof.index) == proof.parent.merkleRoot
  {
    HeaderTextSpells(H, t, arbitrary, pubScriptKey, reserved, job, extranonce, nonce, nonceTime, size);
    CoinbaseTextSpells(H, t, arbitrary, pubScriptKey, reserved, job, extranonce);
    StepsAreBranch(H, t, job);
    var tx := BlockCoinbase(t, pubScriptKey, arbitrary, extranonce);
    var header := BlockHeaderOf(H, t, Format.TxBytes(tx), nonce, nonceTime);
    var digest := Reverse(scrypt(Format.HeaderBytes(header)));
    proof := Format.AuxPow(tx, digest, DecodeAll(job.merkleSteps), 0, [], 0, header);
    var p := ProofOf(H, scrypt, t, job, extranonce, nonce, nonceTime);
    DecodeEncode(digest);
    BranchTextSpells(job.merkleSteps);
    EmptyBranchSpells();
    AuxPowSpells(p, proof, BranchText(p.parentMerkleBranch).value);
    AuxPowReads(p, proof);
    CheckAtZeroIsFold(H, H(Format.TxBytes(tx)), proof.branch);
    FoldIsRoot(H, H(Format.TxBytes(tx)), TreeNodes(t));
  }

  ghost predicate WellFormedCoinbase(t: Template, pubScriptKey: string, arbitrary: Bytes, extranonce: string)
    requires ScriptsDecode(t, pubScriptKey) && HexDecode(extranonce).Some?
  {
    Format.WellFormedTx(BlockCoinbase(t, pubScriptKey, arbitrary, extranonce))
  }
}
