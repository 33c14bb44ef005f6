/** The wire formats of the Bitcoin developer reference ("Block Headers", "Serialized Blocks",
    "Raw Transaction Format") and of the merged mining specification ("Aux proof-of-work
    block"): values, their bytes, and readers that undo them. Nothing here is the pool's. */
module BlockFormat {
  import opened Outcomes
  import opened Bytes
  import CompactSize

  datatype Header = Header(version: nat, prevBlock: Bytes, merkleRoot: Bytes, time: nat, bits: nat, nonce: nat)

  datatype TxIn = TxIn(prevHash: Bytes, prevIndex: nat, script: Bytes, sequence: nat)

  datatype TxOut = TxOut(value: nat, script: Bytes)

  datatype Tx = Tx(version: nat, inputs: seq<TxIn>, outputs: seq<TxOut>, lockTime: nat)

  /** A coinbase and the other transactions, kept as raw bytes. */
  datatype Block = Block(header: Header, coinbase: Tx, transactions: seq<Bytes>)

  datatype AuxPow = AuxPow(coinbase: Tx, parentHash: Bytes, branch: seq<Bytes>, index: nat,
                           chainBranch: seq<Bytes>, chainIndex: nat, parent: Header)

  // ---- Bytes -------------------------------------------------------------------

  function HeaderBytes(h: Header): Bytes {
    LE(h.version, 4) + h.prevBlock + h.merkleRoot + LE(h.time, 4) + LE(h.bits, 4) + LE(h.nonce, 4)
  }

  function VarBytes(b: Bytes): Bytes
    requires |b| < 0x1_0000_0000_0000_0000
  {
    CompactSize.Write(|b|) + b
  }

  ghost predicate WellFormedIn(i: TxIn) {
    |i.prevHash| == 32 && i.prevIndex < Pow256(4) && i.sequence < Pow256(4) && |i.script| < 0x1_0000_0000_0000_0000
  }

  ghost predicate WellFormedOut(o: TxOut) {
    o.value < Pow256(8) && |o.script| < 0x1_0000_0000_0000_0000
  }

  ghost predicate WellFormedTx(t: Tx) {
    && t.version < Pow256(4) && t.lockTime < Pow256(4)
    && |t.inputs| < 0x1_0000_0000_0000_0000 && |t.outputs| < 0x1_0000_0000_0000_0000
    && (forall i | i in t.inputs :: WellFormedIn(i))
    && (forall o | o in t.outputs :: WellFormedOut(o))
  }

  ghost predicate WellFormedHeader(h: Header) {
    && |h.prevBlock| == 32 && |h.merkleRoot| == 32
    && h.version < Pow256(4) && h.time < Pow256(4) && h.bits < Pow256(4) && h.nonce < Pow256(4)
  }

  ghost function InBytes(i: TxIn): Bytes
    requires WellFormedIn(i)
  {
    i.prevHash + LE(i.prevIndex, 4) + VarBytes(i.script) + LE(i.sequence, 4)
  }

  ghost function OutBytes(o: TxOut): Bytes
    requires WellFormedOut(o)
  {
    LE(o.value, 8) + VarBytes(o.script)
  }

  ghost function InsBytes(ins: seq<TxIn>): Bytes
    requires forall i | i in ins :: WellFormedIn(i)
  {
    if ins == [] then [] else InBytes(ins[0]) + InsBytes(ins[1..])
  }

  ghost function OutsBytes(outs: seq<TxOut>): Bytes
    requires forall o | o in outs :: WellFormedOut(o)
  {
    if outs == [] then [] else OutBytes(outs[0]) + OutsBytes(outs[1..])
  }

  ghost function TxBytes(t: Tx): Bytes
    requires WellFormedTx(t)
  {
    LE(t.version, 4) + CompactSize.Write(|t.inputs|) + InsBytes(t.inputs)
    + CompactSize.Write(|t.outputs|) + OutsBytes(t.outputs) + LE(t.lockTime, 4)
  }

  function Flatten<T>(parts: seq<seq<T>>): seq<T> {
    if parts == [] then [] else parts[0] + Flatten(parts[1..])
  }

  ghost function BlockBytes(b: Block): Bytes
    requires WellFormedTx(b.coinbase) && |b.transactions| + 1 < 0x1_0000_0000_0000_0000
  {
    HeaderBytes(b.header) + TransactionsBytes(b.coinbase, b.transactions)
  }

  ghost function TransactionsBytes(coinbase: Tx, others: seq<Bytes>): Bytes
    requires WellFormedTx(coinbase) && |others| + 1 < 0x1_0000_0000_0000_0000
  {
    CompactSize.Write(|others| + 1) + TxBytes(coinbase) + Flatten(others)
  }

  ghost predicate WellFormedBranch(branch: seq<Bytes>, index: nat) {
    |branch| < 0x1_0000_0000_0000_0000 && index < Pow256(4) && forall i :: 0 <= i < |branch| ==> |branch[i]| == 32
  }

  ghost function BranchBytes(branch: seq<Bytes>, index: nat): Bytes
    requires WellFormedBranch(branch, index)
  {
    CompactSize.Write(|branch|) + Flatten(branch) + LE(index, 4)
  }

  ghost predicate WellFormedAuxPow(a: AuxPow) {
    && WellFormedTx(a.coinbase) && |a.parentHash| == 32 && WellFormedHeader(a.parent)
    && WellFormedBranch(a.branch, a.index) && WellFormedBranch(a.chainBranch, a.chainIndex)
  }

  ghost function AuxPowBytes(a: AuxPow): Bytes
    requires WellFormedAuxPow(a)
  {
    TxBytes(a.coinbase) + a.parentHash + BranchBytes(a.branch, a.index)
    + BranchBytes(a.chainBranch, a.chainIndex) + HeaderBytes(a.parent)
  }

  // ---- Readers: a value and the bytes after it ----------------------------------------

  type Parsed<T> = Option<(T, Bytes)>

  function Take(b: Bytes, n: nat): Parsed<Bytes> {
    if |b| < n then None else Some((b[..n], b[n..]))
  }

  function ReadNumber(b: Bytes, width: nat): Parsed<nat> {
    var (raw, rest) :- Take(b, width);
    Some((FromLE(raw), rest))
  }

  function ReadVarBytes(b: Bytes): Parsed<Bytes> {
    var (length, rest) :- CompactSize.Read(b);
    Take(rest, length)
  }

  function ReadHeader(b: Bytes): Parsed<Header> {
    var (version, b1) :- ReadNumber(b, 4);
    var (prevBlock, b2) :- Take(b1, 32);
    var (merkleRoot, b3) :- Take(b2, 32);
    var (time, b4) :- ReadNumber(b3, 4);
    var (bits, b5) :- ReadNumber(b4, 4);
    var (nonce, b6) :- ReadNumber(b5, 4);
    Some((Header(version, prevBlock, merkleRoot, time, bits, nonce), b6))
  }

  function ReadIn(b: Bytes): Parsed<TxIn> {
    var (prevHash, b1) :- Take(b, 32);
    var (prevIndex, b2) :- ReadNumber(b1, 4);
    var (script, b3) :- ReadVarBytes(b2);
    var (sequence, b4) :- ReadNumber(b3, 4);
    Some((TxIn(prevHash, prevIndex, script, sequence), b4))
  }

  function ReadIns(count: nat, b: Bytes): Parsed<seq<TxIn>> {
    if count == 0 then Some(([], b))
    else
      var (first, b1) :- ReadIn(b);
      var (others, b2) :- ReadIns(count - 1, b1);
      Some(([first] + others, b2))
  }

  function ReadOut(b: Bytes): Parsed<TxOut> {
    var (value, b1) :- ReadNumber(b, 8);
    var (script, b2) :- ReadVarBytes(b1);
    Some((TxOut(value, script), b2))
  }

  function ReadOuts(count: nat, b: Bytes): Parsed<seq<TxOut>> {
    if count == 0 then Some(([], b))
    else
      var (first, b1) :- ReadOut(b);
      var (others, b2) :- ReadOuts(count - 1, b1);
      Some(([first] + others, b2))
  }

  function ReadTx(b: Bytes): Parsed<Tx> {
    var (version, b1) :- ReadNumber(b, 4);
    var (inCount, b2) :- CompactSize.Read(b1);
    var (inputs, b3) :- ReadIns(inCount, b2);
    var (outCount, b4) :- CompactSize.Read(b3);
    var (outputs, b5) :- ReadOuts(outCount, b4);
    var (lockTime, b6) :- ReadNumber(b5, 4);
    Some((Tx(version, inputs, outputs, lockTime), b6))
  }

  /** Raw transactions, cut where `size` says the next one ends. */
  function ReadRaw(size: Bytes -> Option<nat>, count: nat, b: Bytes): Parsed<seq<Bytes>> {
    if count == 0 then Some(([], b))
    else
      var n :- size(b);
      var (first, b1) :- Take(b, n);
      var (others, b2) :- ReadRaw(size, count - 1, b1);
      Some(([first] + others, b2))
  }

  /** The transaction count, the coinbase, and the remaining transactions. */
  function ReadTransactions(size: Bytes -> Option<nat>, b: Bytes): Parsed<(Tx, seq<Bytes>)> {
    var (count, b1) :- CompactSize.Read(b);
    if count == 0 then None
    else
      var (coinbase, b2) :- ReadTx(b1);
      var (others, b3) :- ReadRaw(size, count - 1, b2);
      Some(((coinbase, others), b3))
  }

  function ReadBlock(size: Bytes -> Option<nat>, b: Bytes): Parsed<Block> {
    var (header, b1) :- ReadHeader(b);
    var ((coinbase, others), b2) :- ReadTransactions(size, b1);
    Some((Block(header, coinbase, others), b2))
  }

  function ReadHashes(count: nat, b: Bytes): Parsed<seq<Bytes>> {
    if count == 0 then Some(([], b))
    else
      var (first, b1) :- Take(b, 32);
      var (others, b2) :- ReadHashes(count - 1, b1);
      Some(([first] + others, b2))
  }

  function ReadBranch(b: Bytes): Parsed<(seq<Bytes>, nat)> {
    var (count, b1) :- CompactSize.Read(b);
    var (hashes, b2) :- ReadHashes(count, b1);
    var (index, b3) :- ReadNumber(b2, 4);
    Some(((hashes, index), b3))
  }

  function ReadAuxPow(b: Bytes): Parsed<AuxPow> {
    var (coinbase, b1) :- ReadTx(b);
    var (parentHash, b2) :- Take(b1, 32);
    var ((branch, index), b3) :- ReadBranch(b2);
    var ((chainBranch, chainIndex), b4) :- ReadBranch(b3);
    var (parent, b5) :- ReadHeader(b4);
    Some((AuxPow(coinbase, parentHash, branch, index, chainBranch, chainIndex, parent), b5))
  }

  // ---- The readers undo the writers ----------------------------------------------------

  lemma TakeFront(a: Bytes, rest: Bytes)
    ensures Take(a + rest, |a|) == Some((a, rest))
  {
    assert (a + rest)[..|a|] == a && (a + rest)[|a|..] == rest;
  }

  lemma NumberFront(v: nat, width: nat, rest: Bytes)
    requires v < Pow256(width)
    ensures ReadNumber(LE(v, width) + rest, width) == Some((v, rest))
  {
    TakeFront(LE(v, width), rest);
    FromLEOfLE(v, width);
  }

  lemma VarBytesFront(s: Bytes, rest: Bytes)
    requires |s| < 0x1_0000_0000_0000_0000
    ensures ReadVarBytes(VarBytes(s) + rest) == Some((s, rest))
  {
    Group2(CompactSize.Write(|s|), s, rest);
    CompactSize.ReadWrite(|s|, s + rest);
    TakeFront(s, rest);
  }

  lemma HeaderFront(h: Header, rest: Bytes)
    requires WellFormedHeader(h)
    ensures |HeaderBytes(h)| == 80
    ensures ReadHeader(HeaderBytes(h) + rest) == Some((h, rest))
  {
    var r5 := LE(h.nonce, 4) + rest;
    var r4 := LE(h.bits, 4) + r5;
    var r3 := LE(h.time, 4) + r4;
    var r2 := h.merkleRoot + r3;
    var r1 := h.prevBlock + r2;
    Group6(LE(h.version, 4), h.prevBlock, h.merkleRoot, LE(h.time, 4), LE(h.bits, 4), LE(h.nonce, 4), rest);
    NumberFront(h.version, 4, r1);
    TakeFront(h.prevBlock, r2);
    TakeFront(h.merkleRoot, r3);
    NumberFront(h.time, 4, r4);
    NumberFront(h.bits, 4, r5);
    NumberFront(h.nonce, 4, rest);
  }

  lemma InFront(i: TxIn, rest: Bytes)
    requires WellFormedIn(i)
    ensures ReadIn(InBytes(i) + rest) == Some((i, rest))
  {
    var r3 := LE(i.sequence, 4) + rest;
    var r2 := VarBytes(i.script) + r3;
    var r1 := LE(i.prevIndex, 4) + r2;
    Group4(i.prevHash, LE(i.prevIndex, 4), VarBytes(i.script), LE(i.sequence, 4), rest);
    TakeFront(i.prevHash, r1);
    NumberFront(i.prevIndex, 4, r2);
    VarBytesFront(i.script, r3);
    NumberFront(i.sequence, 4, rest);
  }

  lemma {:induction false} InsFront(ins: seq<TxIn>, rest: Bytes)
    requires forall i | i in ins :: WellFormedIn(i)
    ensures ReadIns(|ins|, InsBytes(ins) + rest) == Some((ins, rest))
  {
    if ins == [] {
      assert [] + rest == rest;
    } else {
      var first, others := ins[0], ins[1..];
      var r := InsBytes(others) + rest;
      Group2(InBytes(first), InsBytes(others), rest);
      InFront(first, r);
      InsFront(others, rest);
      assert [first] + others == ins;
    }
  }

  lemma OutFront(o: TxOut, rest: Bytes)
    requires WellFormedOut(o)
    ensures ReadOut(OutBytes(o) + rest) == Some((o, rest))
  {
    var r1 := VarBytes(o.script) + rest;
    Group2(LE(o.value, 8), VarBytes(o.script), rest);
    NumberFront(o.value, 8, r1);
    VarBytesFront(o.script, rest);
  }

  lemma {:induction false} OutsFront(outs: seq<TxOut>, rest: Bytes)
    requires forall o | o in outs :: WellFormedOut(o)
    ensures ReadOuts(|outs|, OutsBytes(outs) + rest) == Some((outs, rest))
  {
    if outs == [] {
      assert [] + rest == rest;
    } else {
      var first, others := outs[0], outs[1..];
      var r := OutsBytes(others) + rest;
      Group2(OutBytes(first), OutsBytes(others), rest);
      OutFront(first, r);
      OutsFront(others, rest);
      assert [first] + others == outs;
    }
  }

  lemma TxFront(t: Tx, rest: Bytes)
    requires WellFormedTx(t)
    ensures ReadTx(TxBytes(t) + rest) == Some((t, rest))
  {
    var r5 := LE(t.lockTime, 4) + rest;
    var r4 := OutsBytes(t.outputs) + r5;
    var r3 := CompactSize.Write(|t.outputs|) + r4;
    var r2 := InsBytes(t.inputs) + r3;
    var r1 := CompactSize.Write(|t.inputs|) + r2;
    Group6(LE(t.version, 4), CompactSize.Write(|t.inputs|), InsBytes(t.inputs),
      CompactSize.Write(|t.outputs|), OutsBytes(t.outputs), LE(t.lockTime, 4), rest);
    NumberFront(t.version, 4, r1);
    CompactSize.ReadWrite(|t.inputs|, r2);
    InsFront(t.inputs, r3);
    CompactSize.ReadWrite(|t.outputs|, r4);
    OutsFront(t.outputs, r5);
    NumberFront(t.lockTime, 4, rest);
  }

  /** `size` finds the end of this raw transaction whatever follows it. */
  ghost predicate Delimits(size: Bytes -> Option<nat>, raw: Bytes) {
    forall rest: Bytes :: size(raw + rest) == Some(|raw|)
  }

  lemma {:induction false} RawFront(size: Bytes -> Option<nat>, raws: seq<Bytes>, rest: Bytes)
    requires forall r | r in raws :: Delimits(size, r)
    ensures ReadRaw(size, |raws|, Flatten(raws) + rest) == Some((raws, rest))
  {
    if raws == [] {
      assert [] + rest == rest;
    } else {
      assert Delimits(size, raws[0]);
      TakeFront(raws[0], Flatten(raws[1..]) + rest);
      RawFront(size, raws[1..], rest);
      Group2(raws[0], Flatten(raws[1..]), rest);
      assert [raws[0]] + raws[1..] == raws;
    }
  }

  lemma TransactionsFront(size: Bytes -> Option<nat>, coinbase: Tx, others: seq<Bytes>, rest: Bytes)
    requires WellFormedTx(coinbase) && |others| + 1 < 0x1_0000_0000_0000_0000
    requires forall r | r in others :: Delimits(size, r)
    ensures ReadTransactions(size, TransactionsBytes(coinbase, others) + rest) == Some(((coinbase, others), rest))
  {
    var r2 := Flatten(others) + rest;
    var r1 := TxBytes(coinbase) + r2;
    Group3(CompactSize.Write(|others| + 1), TxBytes(coinbase), Flatten(others), rest);
    CompactSize.ReadWrite(|others| + 1, r1);
    TxFront(coinbase, r2);
    RawFront(size, others, rest);
  }

  lemma BlockFront(size: Bytes -> Option<nat>, b: Block, rest: Bytes)
    requires WellFormedHeader(b.header) && WellFormedTx(b.coinbase)
    requires |b.transactions| + 1 < 0x1_0000_0000_0000_0000
    requires forall r | r in b.transactions :: Delimits(size, r)
    ensures ReadBlock(size, BlockBytes(b) + rest) == Some((b, rest))
  {
    var r1 := TransactionsBytes(b.coinbase, b.transactions) + rest;
    Group2(HeaderBytes(b.header), TransactionsBytes(b.coinbase, b.transactions), rest);
    HeaderFront(b.header, r1);
    TransactionsFront(size, b.coinbase, b.transactions, rest);
  }

  lemma {:induction false} HashesFront(hashes: seq<Bytes>, rest: Bytes)
    requires forall i :: 0 <= i < |hashes| ==> |hashes[i]| == 32
    ensures ReadHashes(|hashes|, Flatten(hashes) + rest) == Some((hashes, rest))
  {
    if hashes == [] {
      assert [] + rest == rest;
    } else {
      TakeFront(hashes[0], Flatten(hashes[1..]) + rest);
      HashesFront(hashes[1..], rest);
      Group2(hashes[0], Flatten(hashes[1..]), rest);
      assert [hashes[0]] + hashes[1..] == hashes;
    }
  }

  lemma BranchFront(branch: seq<Bytes>, index: nat, rest: Bytes)
    requires WellFormedBranch(branch, index)
    ensures ReadBranch(BranchBytes(branch, index) + rest) == Some(((branch, index), rest))
  {
    var r2 := LE(index, 4) + rest;
    var r1 := Flatten(branch) + r2;
    Group3(CompactSize.Write(|branch|), Flatten(branch), LE(index, 4), rest);
    CompactSize.ReadWrite(|branch|, r1);
    HashesFront(branch, r2);
    NumberFront(index, 4, rest);
  }

  lemma AuxPowFront(a: AuxPow, rest: Bytes)
    requires WellFormedAuxPow(a)
    ensures ReadAuxPow(AuxPowBytes(a) + rest) == Some((a, rest))
  {
    var r4 := HeaderBytes(a.parent) + rest;
    var r3 := BranchBytes(a.chainBranch, a.chainIndex) + r4;
    var r2 := BranchBytes(a.branch, a.index) + r3;
    var r1 := a.parentHash + r2;
    Group5(TxBytes(a.coinbase), a.parentHash, BranchBytes(a.branch, a.index),
      BranchBytes(a.chainBranch, a.chainIndex), HeaderBytes(a.parent), rest);
    TxFront(a.coinbase, r1);
    TakeFront(a.parentHash, r2);
    BranchFront(a.branch, a.index, r3);
    BranchFront(a.chainBranch, a.chainIndex, r4);
    HeaderFront(a.parent, rest);
  }
}
