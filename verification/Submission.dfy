/** What a node finds in a submitted block: bitcoin/submission.go and bitcoin/generator.go against
    the reference formats. */
module Submission {
  import opened Outcomes
  import opened Bytes
  import opened Encoding
  import opened Templates
  import opened Merkle
  import opened Coinbase
  import opened Headers
  import opened Generator
  import opened BlockFormat
  import CompactSize

  // ---- When work can be generated ------------------------------------------------------

  /** The bytes announced for the coinbase script. */
  function ScriptLength(t: Template, arbitrary: Bytes, reserved: nat): nat {
    |BytesWithLengthHeader(arbitrary)| + reserved + |HeightBytes(t)| + 1
  }

  /** The transaction ids from `first` on are hexadecimal text, but for those of odd length. */
  ghost predicate IdsDecode(t: Template, first: nat) {
    forall i | first <= i < |t.transactions| && |t.transactions[i].id| % 2 == 0 :: HexDecode(t.transactions[i].id).Some?
  }

  /** The transactions in the order of the block, each by its id with the bytes turned round; an id of
      odd length leaves nothing. */
  ghost function TreeNodes(t: Template): (nodes: seq<Bytes>)
    requires IdsDecode(t, 0)
  {
    seq(|t.transactions|, i requires 0 <= i < |t.transactions| =>
      if |t.transactions[i].id| % 2 == 0 then Reverse(HexDecode(t.transactions[i].id).value) else [])
  }

  /** The node texts the code makes stand for these. */
  lemma NodesAreIds(t: Template)
    ensures AllDecode(NodeTexts(Ids(t))) <==> IdsDecode(t, 0)
    ensures IdsDecode(t, 0) ==> DecodeAll(NodeTexts(Ids(t))) == TreeNodes(t)
  {
    forall i | 0 <= i < |t.transactions|
      ensures HexDecode(NodeTexts(Ids(t))[i]).Some? <==> |t.transactions[i].id| % 2 == 1 || HexDecode(t.transactions[i].id).Some?
      ensures |t.transactions[i].id| % 2 == 1 ==> NodeTexts(Ids(t))[i] == ""
      ensures |t.transactions[i].id| % 2 == 0 && HexDecode(t.transactions[i].id).Some? ==>
        HexDecode(NodeTexts(Ids(t))[i]) == Some(Reverse(HexDecode(t.transactions[i].id).value))
    {
      NodeTextDecodes(t.transactions[i].id);
    }
  }

  lemma StepsSucceed(H: Bytes -> Hash, t: Template)
    ensures BranchHex(H, NodeTexts(Ids(t))).Ok? <==> IdsDecode(t, 1)
    ensures !BranchHex(H, NodeTexts(Ids(t))).Panic?
  {
    OddIdsAreEmptyNodes(H, Ids(t));
    assert forall i | 0 <= i < |t.transactions| :: Ids(t)[i] == t.transactions[i].id;
  }

  /** Work is generated exactly when the previous hash is whole words, no length is one the
      code cannot write, and every transaction id after the first makes a node. */
  lemma MakeJobSucceeds(H: Bytes -> Hash, t: Template, arbitrary: Bytes, pubScriptKey: string, reserved: nat)
    ensures MakeJob(H, t, arbitrary, pubScriptKey, reserved).Ok? <==>
      && |t.prevBlockHash| % 8 == 0
      && Streamable(ScriptLength(t, arbitrary, reserved)) && OutputsStreamable(t, pubScriptKey)
      && IdsDecode(t, 1)
    ensures MakeJob(H, t, arbitrary, pubScriptKey, reserved).Panic? <==>
      && |t.prevBlockHash| % 8 == 0
      && !(Streamable(ScriptLength(t, arbitrary, reserved)) && OutputsStreamable(t, pubScriptKey))
  {
    InitialSpells(t, |BytesWithLengthHeader(arbitrary)| + reserved);
    VarUintSpells(|t.defaultWitnessCommitment| / 2);
    VarUintSpells(|pubScriptKey| / 2);
    VarUintSpells(1);
    VarUintSpells(2);
    StepsSucceed(H, t);
    hide IdsDecode, BranchHex;
  }

  // ---- The finished block ---------------------------------------------------------------

  /** What the code relies on its node for: hashes and bits of the usual sizes, and hexadecimal
      text wherever bytes are meant. `size` tells where a raw transaction ends. */
  ghost predicate WellSized(t: Template, pubScriptKey: string, size: Bytes -> Option<nat>) {
    && SpellsSize(t.prevBlockHash, 32) && SpellsSize(t.bits, 4)
    && ScriptsDecode(t, pubScriptKey)
    && IdsDecode(t, 0)
    && (forall x | x in t.transactions :: HexDecode(x.data).Some? && Delimits(size, HexDecode(x.data).value))
    && HexDecode(t.mimbleWimble).Some?
  }

  ghost predicate SpellsSize(s: string, n: nat) {
    HexDecode(s).Some? && |HexDecode(s).value| == n
  }

  function RawTransactions(transactions: seq<Transaction>): (raws: seq<Bytes>)
    requires forall x | x in transactions :: HexDecode(x.data).Some?
    ensures |raws| == |transactions|
    ensures forall i :: 0 <= i < |raws| ==> raws[i] == HexDecode(transactions[i].data).value
  {
    seq(|transactions|, i requires 0 <= i < |transactions| => HexDecode(transactions[i].data).value)
  }

  lemma {:induction false} FlattenLast<T>(parts: seq<seq<T>>, last: seq<T>)
    ensures Flatten(parts + [last]) == Flatten(parts) + last
  {
    if parts == [] {
      assert [last][1..] == [] && Flatten<T>([]) == [];
      assert last + [] == last == [] + last;
      assert [] + [last] == [last];
    } else {
      FlattenLast(parts[1..], last);
      assert (parts + [last])[1..] == parts[1..] + [last];
      Group2(parts[0], Flatten(parts[1..]), last);
    }
  }

  lemma RawTransactionsLast(transactions: seq<Transaction>)
    requires transactions != []
    requires forall x | x in transactions :: HexDecode(x.data).Some?
    ensures Flatten(RawTransactions(transactions)) ==
      Flatten(RawTransactions(transactions[..|transactions| - 1])) + HexDecode(transactions[|transactions| - 1].data).value
  {
    var front, last := transactions[..|transactions| - 1], HexDecode(transactions[|transactions| - 1].data).value;
    assert forall i :: 0 <= i < |front| ==> front[i] == transactions[i];
    var raws := RawTransactions(transactions);
    assert raws == raws[..|front|] + [raws[|front|]];
    assert raws[..|front|] == RawTransactions(front);
    FlattenLast(RawTransactions(front), last);
  }

  lemma {:induction false} TextsSpell(transactions: seq<Transaction>)
    requires forall x | x in transactions :: HexDecode(x.data).Some?
    ensures Spells(Texts(transactions), Flatten(RawTransactions(transactions)))
  {
    if transactions == [] {
      assert RawTransactions([]) == [];
    } else {
      var front, last := transactions[..|transactions| - 1], transactions[|transactions| - 1];
      TextsSpell(front);
      SpellsAppend(Texts(front), Flatten(RawTransactions(front)), last.data, HexDecode(last.data).value);
      RawTransactionsLast(transactions);
    }
  }

  lemma {:induction false} RootSize(H: Bytes -> Hash, level: seq<Bytes>)
    requires |level| > 0 && |level[0]| == 32
    ensures |Root(H, level)| == 32
    decreases |level|
  {
    if |level| > 1 {
      PairUpSizes(H, level);
      RootSize(H, PairUp(H, level));
    }
  }

  /** The tree a node builds over the block's transactions: the coinbase first. */
  ghost function TreeRoot(H: Bytes -> Hash, t: Template, coinbase: Bytes): Bytes
    requires IdsDecode(t, 0)
  {
    Root(H, [H(coinbase)] + TreeNodes(t))
  }

  lemma RootOfSteps(H: Bytes -> Hash, t: Template, job: Job, coinbase: string)
    requires BranchHex(H, NodeTexts(Ids(t))) == Ok(job.merkleSteps)
    requires IdsDecode(t, 0) && HexDecode(coinbase).Some?
    ensures RootText(H, job, coinbase) == Ok(HexEncode(TreeRoot(H, t, HexDecode(coinbase).value)))
  {
    hide BranchHex;
    var hashed := H(HexDecode(coinbase).value);
    DecodeEncode(hashed);
    NodesAreIds(t);
    HeaderRootIsTreeRoot(H, HexEncode(hashed), NodeTexts(Ids(t)));
  }

  /** For generated work, the root put in a header is that of the tree. */
  lemma RootTextIsTreeRoot(H: Bytes -> Hash, t: Template, arbitrary: Bytes, pubScriptKey: string, reserved: nat, job: Job, coinbase: string)
    requires MakeJob(H, t, arbitrary, pubScriptKey, reserved) == Ok(job)
    requires IdsDecode(t, 0) && HexDecode(coinbase).Some?
    ensures RootText(H, job, coinbase) == Ok(HexEncode(TreeRoot(H, t, HexDecode(coinbase).value)))
    ensures SpellsSize(HexEncode(TreeRoot(H, t, HexDecode(coinbase).value)), 32)
  {
    hide BranchHex, RootText, IdsDecode;
    RootOfSteps(H, t, job, coinbase);
    RootSize(H, [H(HexDecode(coinbase).value)] + TreeNodes(t));
    DecodeEncode(TreeRoot(H, t, HexDecode(coinbase).value));
  }

  ghost predicate ShareSizes(extranonce: string, reserved: nat, nonce: string, nonceTime: string) {
    SpellsSize(extranonce, reserved) && SpellsSize(nonce, 4) && SpellsSize(nonceTime, 4)
  }

  ghost function BlockCoinbase(t: Template, pubScriptKey: string, arbitrary: Bytes, extranonce: string): Tx
    requires ScriptsDecode(t, pubScriptKey) && HexDecode(extranonce).Some?
  {
    IntendedCoinbase(t, pubScriptKey, HexDecode(extranonce).value, arbitrary)
  }

  /** The header of a share, as a value. */
  ghost function BlockHeaderOf(H: Bytes -> Hash, t: Template, coinbase: Bytes, nonce: string, nonceTime: string): Header
    requires IdsDecode(t, 0)
    requires HexDecode(t.prevBlockHash).Some? && HexDecode(t.bits).Some?
    requires HexDecode(nonce).Some? && HexDecode(nonceTime).Some?
  {
    IntendedHeader(t.version, HexDecode(t.prevBlockHash).value, TreeRoot(H, t, coinbase),
                   HexDecode(nonceTime).value, HexDecode(t.bits).value, HexDecode(nonce).value)
  }

  lemma CoinbaseTextSpells(H: Bytes -> Hash, t: Template, arbitrary: Bytes, pubScriptKey: string, reserved: nat,
                           job: Job, extranonce: string)
    requires MakeJob(H, t, arbitrary, pubScriptKey, reserved) == Ok(job)
    requires ScriptsDecode(t, pubScriptKey) && SpellsSize(extranonce, reserved)
    ensures WellFormedTx(BlockCoinbase(t, pubScriptKey, arbitrary, extranonce))
    ensures Spells(CoinbaseText(job, extranonce), TxBytes(BlockCoinbase(t, pubScriptKey, arbitrary, extranonce)))
    ensures CarriesHeight(BlockCoinbase(t, pubScriptKey, arbitrary, extranonce).inputs[0].script, t.height, HexDecode(extranonce).value, arbitrary)
    ensures BranchHex(H, NodeTexts(Ids(t))) == Ok(job.merkleSteps)
  {
    MakeJobSucceeds(H, t, arbitrary, pubScriptKey, reserved);
    CoinbaseSpells(t, pubScriptKey, arbitrary, reserved, extranonce, HexDecode(extranonce).value);
  }

  /** A reader of the coinbase finds one input, whose script carries the height of the template. */
  lemma CoinbaseCarriesHeight(H: Bytes -> Hash, t: Template, arbitrary: Bytes, pubScriptKey: string, reserved: nat, job: Job, extranonce: string)
    requires MakeJob(H, t, arbitrary, pubScriptKey, reserved) == Ok(job)
    requires ScriptsDecode(t, pubScriptKey) && SpellsSize(extranonce, reserved)
    ensures HexDecode(CoinbaseText(job, extranonce)).Some?
    ensures var read := ReadTx(HexDecode(CoinbaseText(job, extranonce)).value);
      && read.Some? && read.value.1 == [] && |read.value.0.inputs| == 1
      && CarriesHeight(read.value.0.inputs[0].script, t.height, HexDecode(extranonce).value, arbitrary)
  {
    hide CarriesHeight;
    CoinbaseTextSpells(H, t, arbitrary, pubScriptKey, reserved, job, extranonce);
    var tx := BlockCoinbase(t, pubScriptKey, arbitrary, extranonce);
    TxFront(tx, []);
    assert TxBytes(tx) + [] == TxBytes(tx);
  }

  lemma HeaderTextSpells(H: Bytes -> Hash, t: Template, arbitrary: Bytes, pubScriptKey: string, reserved: nat,
                         job: Job, extranonce: string, nonce: string, nonceTime: string, size: Bytes -> Option<nat>)
    requires MakeJob(H, t, arbitrary, pubScriptKey, reserved) == Ok(job)
    requires WellSized(t, pubScriptKey, size) && ShareSizes(extranonce, reserved, nonce, nonceTime)
    ensures WellFormedTx(BlockCoinbase(t, pubScriptKey, arbitrary, extranonce))
    ensures var coinbase := TxBytes(BlockCoinbase(t, pubScriptKey, arbitrary, extranonce));
      var header := BlockHeaderOf(H, t, coinbase, nonce, nonceTime);
      && WellFormedHeader(header)
      && HeaderText(H, t, job, extranonce, nonce, nonceTime).Ok?
      && Spells(HeaderText(H, t, job, extranonce, nonce, nonceTime).value, HeaderBytes(header))
  {
    CoinbaseTextSpells(H, t, arbitrary, pubScriptKey, reserved, job, extranonce);
    var coinbase := TxBytes(BlockCoinbase(t, pubScriptKey, arbitrary, extranonce));
    RootTextIsTreeRoot(H, t, arbitrary, pubScriptKey, reserved, job, CoinbaseText(job, extranonce));
    var root := TreeRoot(H, t, coinbase);
    DecodeEncode(root);
    HeaderHexSpells(t.version, t.prevBlockHash, HexEncode(root), nonceTime, t.bits, nonce);
    RawHeaderIsHeader(t.version, HexDecode(t.prevBlockHash).value, root, HexDecode(nonceTime).value,
                      HexDecode(t.bits).value, HexDecode(nonce).value);
  }

  lemma SubmissionSpells(t: Template, header: string, h: Bytes, coinbase: string, c: Bytes)
    requires forall x | x in t.transactions :: HexDecode(x.data).Some?
    requires HexDecode(t.mimbleWimble).Some? && Spells(header, h) && Spells(coinbase, c)
    requires Streamable(|t.transactions| + 1)
    ensures SubmissionText(t, header, coinbase).Ok?
    ensures Spells(SubmissionText(t, header, coinbase).value,
                   h + CompactSize.Write(|t.transactions| + 1) + c + Flatten(RawTransactions(t.transactions)) + Suffix(t))
  {
    var n := |t.transactions| + 1;
    VarUintSpells(n);
    TextsSpell(t.transactions);
    FourBytes();
    var count := VarUintHex(n).value;
    var s1, b1 := header + count, h + CompactSize.Write(n);
    SpellsAppend(header, h, count, CompactSize.Write(n));
    SpellsAppend(s1, b1, coinbase, c);
    SpellsAppend(s1 + coinbase, b1 + c, Texts(t.transactions), Flatten(RawTransactions(t.transactions)));
    SpellsAppend("01", [1], t.mimbleWimble, HexDecode(t.mimbleWimble).value);
    var suffix := if t.mimbleWimble != "" then "01" + t.mimbleWimble else "";
    assert Spells("", []);
    SpellsAppend(s1 + coinbase + Texts(t.transactions), b1 + c + Flatten(RawTransactions(t.transactions)), suffix, Suffix(t));
  }

  /** The extension block, behind its flag byte. */
  ghost function Suffix(t: Template): Bytes
    requires HexDecode(t.mimbleWimble).Some?
  {
    if t.mimbleWimble != "" then [1] + HexDecode(t.mimbleWimble).value else []
  }

  /** Block round trip. A node that reads the submission by the reference formats finds the six
      header fields, the transaction count, the intended coinbase, whose script has exactly the
      declared length and carries the height, and every transaction in order; what is left is the extension block. The
      only template this excludes is one whose transaction count the code cannot write. */
  lemma SubmissionRoundTrip(H: Bytes -> Hash, t: Template, arbitrary: Bytes, pubScriptKey: string, reserved: nat,
                            job: Job, extranonce: string, nonce: string, nonceTime: string, size: Bytes -> Option<nat>)
    requires MakeJob(H, t, arbitrary, pubScriptKey, reserved) == Ok(job)
    requires WellSized(t, pubScriptKey, size) && ShareSizes(extranonce, reserved, nonce, nonceTime)
    requires Streamable(|t.transactions| + 1)
    ensures HeaderText(H, t, job, extranonce, nonce, nonceTime).Ok?
    ensures var tx := BlockCoinbase(t, pubScriptKey, arbitrary, extranonce);
      var submission := SubmissionText(t, HeaderText(H, t, job, extranonce, nonce, nonceTime).value, CoinbaseText(job, extranonce));
      && WellFormedTx(tx) && submission.Ok? && HexDecode(submission.value).Some?
      && ReadBlock(size, HexDecode(submission.value).value) ==
         Some((Block(BlockHeaderOf(H, t, TxBytes(tx), nonce, nonceTime), tx, RawTransactions(t.transactions)), Suffix(t)))
      && CarriesHeight(tx.inputs[0].script, t.height, HexDecode(extranonce).value, arbitrary)
  {
    hide CarriesHeight;
    HeaderTextSpells(H, t, arbitrary, pubScriptKey, reserved, job, extranonce, nonce, nonceTime, size);
    CoinbaseTextSpells(H, t, arbitrary, pubScriptKey, reserved, job, extranonce);
    var tx := BlockCoinbase(t, pubScriptKey, arbitrary, extranonce);
    var header := BlockHeaderOf(H, t, TxBytes(tx), nonce, nonceTime);
    SubmissionReads(t, HeaderText(H, t, job, extranonce, nonce, nonceTime).value, header,
                    CoinbaseText(job, extranonce), tx, size);
  }

  lemma SubmissionReads(t: Template, headerText: string, header: Header, coinbaseText: string, tx: Tx,
                        size: Bytes -> Option<nat>)
    requires forall x | x in t.transactions :: HexDecode(x.data).Some? && Delimits(size, HexDecode(x.data).value)
    requires HexDecode(t.mimbleWimble).Some? && Streamable(|t.transactions| + 1)
    requires WellFormedHeader(header) && Spells(headerText, HeaderBytes(header))
    requires WellFormedTx(tx) && Spells(coinbaseText, TxBytes(tx))
    ensures var submission := SubmissionText(t, headerText, coinbaseText);
      && submission.Ok? && HexDecode(submission.value).Some?
      && ReadBlock(size, HexDecode(submission.value).value)
         == Some((Block(header, tx, RawTransactions(t.transactions)), Suffix(t)))
  {
    hide ReadBlock, HeaderBytes, TxBytes, SubmissionText, WellFormedTx, WellFormedHeader, Delimits, Suffix;
    var raws := RawTransactions(t.transactions);
    SubmissionSpells(t, headerText, HeaderBytes(header), coinbaseText, TxBytes(tx));
    forall r | r in raws ensures Delimits(size, r) {
      var i :| 0 <= i < |raws| && raws[i] == r;
      assert t.transactions[i] in t.transactions;
    }
    PartsAreBlock(size, Block(header, tx, raws), Suffix(t));
  }

  /** The parts of a submission, in the order the code writes them, are a block and a rest. */
  lemma PartsAreBlock(size: Bytes -> Option<nat>, b: Block, rest: Bytes)
    requires WellFormedHeader(b.header) && WellFormedTx(b.coinbase)
    requires |b.transactions| + 1 < 0x1_0000_0000_0000_0000
    requires forall r | r in b.transactions :: Delimits(size, r)
    ensures ReadBlock(size, HeaderBytes(b.header) + CompactSize.Write(|b.transactions| + 1) + TxBytes(b.coinbase)
                            + Flatten(b.transactions) + rest) == Some((b, rest))
  {
    var h, count, c, f := HeaderBytes(b.header), CompactSize.Write(|b.transactions| + 1), TxBytes(b.coinbase), Flatten(b.transactions);
    PartsRegroup(h, count, c, f, rest);
    BlockFront(size, b, rest);
  }

  lemma PartsRegroup(h: Bytes, count: Bytes, c: Bytes, f: Bytes, rest: Bytes)
    ensures h + count + c + f + rest == (h + (count + c + f)) + rest
  {
    Group4(h, count, c, f, rest);
    Group3(count, c, f, rest);
    Group2(h, count + c + f, rest);
  }

  /** A miner's view: the broadcast previous hash, with the bytes of each word swapped, is the
      byte order the header holds. */
  lemma BroadcastPreviousHash(H: Bytes -> Hash, t: Template, arbitrary: Bytes, pubScriptKey: string, reserved: nat, job: Job)
    requires MakeJob(H, t, arbitrary, pubScriptKey, reserved) == Ok(job) && HexDecode(t.prevBlockHash).Some?
    ensures |job.reversePrevBlockHash| % 8 == 0
    ensures Spells(SwapInWords(job.reversePrevBlockHash), Reverse(HexDecode(t.prevBlockHash).value))
  {
    var prev := t.prevBlockHash;
    var sent := job.reversePrevBlockHash;
    WholeWords(prev);
    ReverseBlocksLength(prev, 8);
    ReverseBlocksTwice(prev, 8);
    ReversalsCommute(sent);
    ReversePairsDecodes(prev);
    assert SwapInWords(sent) == ReverseBlocks(prev, 2);
  }
}
