/** bitcoin/generator.go and bitcoin/submission.go: work from a template, headers from shares,
    and the finished block. */
module Generator {
  import opened Outcomes
  import opened Bytes
  import opened Encoding
  import opened Templates
  import opened Merkle
  import opened Coinbase
  import opened Headers
  import BlockFormat

  const CHAINS := {"dogecoin", "litecoin", "bellscoin", "luckycoin", "pepecoin"}

  /** The parts of a block that do not depend on a share. */
  datatype Job = Job(reversePrevBlockHash: string, coinbaseInitial: string, coinbaseFinal: string, merkleSteps: seq<string>)

  /** The packet sent to miners. */
  datatype Work = Work(jobId: string, prevHash: string, coinb1: string, coinb2: string, merkleBranch: seq<string>,
                       version: string, nBits: string, nTime: string, aux: seq<string>)

  /** One aux block per configured chain, in the order the map is walked; `None` for nil. */
  datatype AuxEntry = AuxEntry(chain: string, hash: Option<string>)

  function Ids(t: Template): (ids: seq<string>)
    ensures |ids| == |t.transactions|
  {
    seq(|t.transactions|, i requires 0 <= i < |t.transactions| => t.transactions[i].id)
  }

  /** What `GenerateWork` fills a block with. */
  function MakeJob(H: Bytes -> Hash, t: Template, arbitrary: Bytes, poolScript: string, reserved: nat): Outcome<Job> {
    if |t.prevBlockHash| % 8 != 0 then Err
    else
      var arbitraryBytes := BytesWithLengthHeader(arbitrary);
      var initial :- MakeCoinbaseInitial(t, |arbitraryBytes| + reserved).Serialize();
      var final :- MakeCoinbaseFinal(t, poolScript);
      var finalText :- final.Serialize();
      var steps :- BranchHex(H, NodeTexts(Ids(t)));
      Ok(Job(ReverseBlocks(t.prevBlockHash, 8), initial, HexEncode(arbitraryBytes) + finalText, steps))
  }

  function AuxTexts(aux: seq<AuxEntry>): seq<string> {
    if aux == [] then []
    else
      var last := aux[|aux| - 1];
      AuxTexts(aux[..|aux| - 1]) + if last.hash.Some? then [last.chain + ":" + last.hash.value] else []
  }

  function WorkOf(jobCounter: nat, t: Template, job: Job, aux: seq<AuxEntry>): Work {
    Work(FormatHex(jobCounter, 8), job.reversePrevBlockHash, job.coinbaseInitial, job.coinbaseFinal, job.merkleSteps,
         FormatHex(t.version, 8), t.bits, HexText(t.currentTime), AuxTexts(aux))
  }

  function CoinbaseText(job: Job, extranonce: string): string {
    job.coinbaseInitial + extranonce + job.coinbaseFinal
  }

  function DigestHex(H: Bytes -> Hash, text: string): Outcome<string> {
    var bytes :- OrErr(HexDecode(text));
    Ok(HexEncode(H(bytes)))
  }

  /** The Merkle root over a coinbase and the job's branch. */
  function RootText(H: Bytes -> Hash, job: Job, coinbase: string): Outcome<string> {
    var hashed :- DigestHex(H, coinbase);
    HeaderRootHex(H, hashed, job.merkleSteps)
  }

  function HeaderText(H: Bytes -> Hash, t: Template, job: Job, extranonce: string, nonce: string, nonceTime: string): Outcome<string> {
    var root :- RootText(H, job, CoinbaseText(job, extranonce));
    HeaderHex(t.version, t.prevBlockHash, root, nonceTime, t.bits, nonce)
  }

  /** A header is never empty, and always hexadecimal text. */
  lemma HeaderHasText(H: Bytes -> Hash, t: Template, job: Job, extranonce: string, nonce: string, nonceTime: string)
    requires HeaderText(H, t, job, extranonce, nonce, nonceTime).Ok?
    ensures HeaderText(H, t, job, extranonce, nonce, nonceTime).value != ""
    ensures HexDecode(HeaderText(H, t, job, extranonce, nonce, nonceTime).value).Some?
  {
    var root := RootText(H, job, CoinbaseText(job, extranonce)).value;
    HeaderHexSpells(t.version, t.prevBlockHash, root, nonceTime, t.bits, nonce);
  }

  function Texts(transactions: seq<Transaction>): string {
    if transactions == [] then ""
    else Texts(transactions[..|transactions| - 1]) + transactions[|transactions| - 1].data
  }

  /** A call of `MakeHeader`, and what it leaves in the block. */
  datatype Call = Call(extranonce: string, nonce: string, nonceTime: string)
  datatype Sealed = Sealed(coinbase: string, header: string)

  /** A call that fails at the root leaves the new coinbase beside the old header; one that fails
      at the header clears it. */
  function AfterMakeHeader(H: Bytes -> Hash, t: Template, job: Job, s: Sealed, c: Call): Sealed {
    var coinbase := CoinbaseText(job, c.extranonce);
    var header := HeaderText(H, t, job, c.extranonce, c.nonce, c.nonceTime);
    Sealed(coinbase, if header.Ok? then header.value else if RootText(H, job, coinbase).Ok? then "" else s.header)
  }

  function SubmissionText(t: Template, header: string, coinbase: string): Outcome<string> {
    var count :- VarUintHex(|t.transactions| + 1);
    Ok(header + count + coinbase + Texts(t.transactions) + if t.mimbleWimble != "" then "01" + t.mimbleWimble else "")
  }

  class BitcoinBlock {
    const H: Bytes -> Hash
    const scrypt: Bytes -> Hash
    var template: Option<Template>
    var reversePrevBlockHash: string
    var coinbaseInitial: string
    var coinbaseFinal: string
    var merkleSteps: seq<string>
    var coinbase: string
    var header: string
    var hash: string

    constructor (H: Bytes -> Hash, scrypt: Bytes -> Hash)
      ensures this.H == H && this.scrypt == scrypt && template == None
      ensures coinbase == "" && header == "" && hash == ""
    {
      this.H, this.scrypt, template := H, scrypt, None;
      reversePrevBlockHash, coinbaseInitial, coinbaseFinal, merkleSteps := "", "", "", [];
      coinbase, header, hash := "", "", "";
    }

    function CurrentJob(): Job
      reads this
    {
      Job(reversePrevBlockHash, coinbaseInitial, coinbaseFinal, merkleSteps)
    }

    method MakeHeader(extranonce: string, nonce: string, nonceTime: string) returns (r: Outcome<string>)
      modifies this`coinbase, this`header
      ensures template.None? ==> r == Err && coinbase == old(coinbase) && header == old(header)
      ensures template.Some? ==>
        && r == HeaderText(H, template.value, CurrentJob(), extranonce, nonce, nonceTime)
        && Sealed(coinbase, header)
           == AfterMakeHeader(H, template.value, CurrentJob(), Sealed(old(coinbase), old(header)), Call(extranonce, nonce, nonceTime))
    {
      if template.None? {
        return Err;
      }
      coinbase := coinbaseInitial + extranonce + coinbaseFinal;
      var coinbaseHashed :- DigestHex(H, coinbase);
      var merkleRoot :- MakeHeaderMerkleRoot(H, coinbaseHashed, merkleSteps);
      var t := template.value;
      r := BlockHeader(t.version, t.prevBlockHash, merkleRoot, nonceTime, t.bits, nonce);
      header := if r.Ok? then r.value else "";
    }

    /** The header's scrypt digest, kept in display order and read as a big-endian number. */
    method Sum() returns (r: Outcome<nat>)
      modifies this`hash
      ensures r == if header == "" || HexDecode(header).None? then Err
                   else Ok(FromLE(scrypt(HexDecode(header).value)))
      ensures hash == if r.Ok? then HexEncode(Reverse(scrypt(HexDecode(header).value))) else old(hash)
    {
      if header == "" {
        return Err;
      }
      var digest :- DigestHex(scrypt, header);
      ghost var bytes := scrypt(HexDecode(header).value);
      DecodeEncode(bytes);
      ReversePairsDecodes(digest);
      EncodeReverse(bytes);
      var reversed := ReverseHexBytes(digest);
      hash := reversed.value;
      ReverseTwice(bytes);
      var digestBytes := HexDecode(reversed.value).value;
      return Ok(FromBE(digestBytes));
    }

    method BuildTransactionBuffer() returns (buffer: string)
      requires template.Some?
      ensures buffer == Texts(template.value.transactions)
    {
      buffer := "";
      var transactions := template.value.transactions;
      for i := 0 to |transactions|
        invariant buffer == Texts(transactions[..i])
      {
        assert transactions[..i + 1][..i] == transactions[..i];
        buffer := buffer + transactions[i].data;
      }
      assert transactions[..|transactions|] == transactions;
    }

    method Submit() returns (r: Outcome<string>)
      requires header != "" ==> template.Some?
      ensures header == "" ==> r == Err
      ensures header != "" ==> r == SubmissionText(template.value, header, coinbase)
    {
      if header == "" {
        return Err;
      }
      var count :- VarUintHex(|template.value.transactions| + 1);
      var buffer := BuildTransactionBuffer();
      var submission := header + count + coinbase + buffer;
      var suffix := "";
      if template.value.mimbleWimble != "" {
        suffix := "01" + template.value.mimbleWimble;
      }
      return Ok(submission + suffix);
    }
  }

  lemma EncodeReverse(b: Bytes)
    ensures ReverseBlocks(HexEncode(b), 2) == HexEncode(Reverse(b))
  {
    var s := HexEncode(b);
    var r := ReverseBlocks(s, 2);
    DecodeEncode(b);
    ReversePairsDecodes(s);
    assert HexDecode(r) == Some(Reverse(b));
    EncodeIsLower(b);
    ReverseBlocksLower(s, 2);
    EncodeDecode(r);
  }

  lemma {:induction false} ReverseBlocksLower(s: string, k: nat)
    requires k > 0 && LowerHex(s)
    ensures LowerHex(ReverseBlocks(s, k))
  {
    if |s| >= k {
      ReverseBlocksLower(s[k..], k);
    }
  }

  /** The package's job counter and the two digests, around `GenerateWork`. */
  class WorkSource {
    const H: Bytes -> Hash
    const scrypt: Bytes -> Hash
    var jobCounter: nat

    constructor (H: Bytes -> Hash, scrypt: Bytes -> Hash)
      ensures this.H == H && this.scrypt == scrypt && jobCounter == 0
    {
      this.H, this.scrypt, jobCounter := H, scrypt, 0;
    }

    /** The part of `GenerateWork` that can fail after the chain is known. */
    method PrepareJob(t: Template, arbitrary: Bytes, poolPayoutPubScriptKey: string, reservedArbitraryByteLength: nat)
      returns (r: Outcome<Job>)
      ensures r == MakeJob(H, t, arbitrary, poolPayoutPubScriptKey, reservedArbitraryByteLength)
    {
      var reversePrev :- ReverseHex4Bytes(t.prevBlockHash);
      var arbitraryBytes := BytesWithLengthHeader(arbitrary);
      var parts := CoinbaseInitialFor(t, |arbitraryBytes| + reservedArbitraryByteLength);
      var initial :- parts.Serialize();
      var outputs :- CoinbaseTransactionOutputs(t, poolPayoutPubScriptKey);
      var final :- CoinbaseFinal("00000000", outputs.0, outputs.1, "00000000").Serialize();
      var steps :- MerkleSteps(H, Ids(t));
      return Ok(Job(reversePrev, initial, HexEncode(arbitraryBytes) + final, steps));
    }

    /** The aux part of the packet: one text per aux block that is not nil. */
    method AppendAux(auxBlocks: seq<AuxEntry>) returns (aux: seq<string>)
      ensures aux == AuxTexts(auxBlocks)
    {
      aux := [];
      for i := 0 to |auxBlocks|
        invariant aux == AuxTexts(auxBlocks[..i])
      {
        assert auxBlocks[..i + 1][..i] == auxBlocks[..i];
        if auxBlocks[i].hash.Some? {
          aux := aux + [auxBlocks[i].chain + ":" + auxBlocks[i].hash.value];
        }
      }
      assert auxBlocks[..|auxBlocks|] == auxBlocks;
    }

    /** Either a fresh block holding the job and the next job id, or no block and no id used. */
    method GenerateWork(template: Option<Template>, auxBlocks: seq<AuxEntry>, chainName: string,
                        arbitrary: Bytes, poolPayoutPubScriptKey: string, reservedArbitraryByteLength: nat)
      returns (block: BitcoinBlock?, r: Outcome<Work>)
      modifies this
      ensures template.None? ==> r == Err
      ensures template.Some? && chainName !in CHAINS ==> r == Panic
      ensures template.Some? && chainName in CHAINS ==>
        match MakeJob(H, template.value, arbitrary, poolPayoutPubScriptKey, reservedArbitraryByteLength)
        case Ok(job) => r == Ok(WorkOf(old(jobCounter), template.value, job, auxBlocks))
                        && block != null && block.CurrentJob() == job
        case Err => r == Err
        case Panic => r == Panic
      ensures r.Ok? ==> block != null && fresh(block) && block.H == H && block.scrypt == scrypt
                        && block.template == template && block.header == block.coinbase == block.hash == ""
                        && jobCounter == old(jobCounter) + 1
      ensures !r.Ok? ==> block == null && jobCounter == old(jobCounter)
    {
      block := null;
      if template.None? {
        return block, Err;
      }
      if chainName !in CHAINS {
        return block, Panic;
      }
      var t := template.value;
      var prepared := PrepareJob(t, arbitrary, poolPayoutPubScriptKey, reservedArbitraryByteLength);
      if !prepared.Ok? {
        return block, prepared.PropagateFailure();
      }
      var job := prepared.value;
      block := new BitcoinBlock(H, scrypt);
      block.template := template;
      block.reversePrevBlockHash := job.reversePrevBlockHash;
      block.coinbaseInitial, block.coinbaseFinal := job.coinbaseInitial, job.coinbaseFinal;
      block.merkleSteps := job.merkleSteps;
      var aux := AppendAux(auxBlocks);
      r := Ok(Work(FormatHex(jobCounter, 8), block.reversePrevBlockHash, block.coinbaseInitial, block.coinbaseFinal,
                   block.merkleSteps, FormatHex(t.version, 8), t.bits, HexText(t.currentTime), aux));
      jobCounter := jobCounter + 1;
    }
  }
}
