/** bitcoin/coinbase.go and bitcoin/transaction.go: the coinbase transaction, split around a
    hole for the extranonce. */
module Coinbase {
  import opened Outcomes
  import opened Bytes
  import opened Encoding
  import opened Templates
  import opened BlockFormat
  import CompactSize

  const ZERO_AMOUNT: string := "0000000000000000"

  const ZERO_HASH: string := ZERO_AMOUNT + ZERO_AMOUNT + ZERO_AMOUNT + ZERO_AMOUNT

  datatype CoinbaseInitial = CoinbaseInitial(
    version: string,
    numberOfInputs: string,
    previousOutputTransactionID: string,
    previousOutputIndex: string,
    bytesInArbitrary: nat,
    bytesInHeight: nat,
    heightHex: string)
  {
    function Serialize(): Outcome<string> {
      var arbitraryLength :- VarUintHex(bytesInArbitrary);
      var heightLength :- VarUintHex(bytesInHeight);
      Ok(version + numberOfInputs + previousOutputTransactionID + previousOutputIndex
         + arbitraryLength + heightLength + heightHex)
    }
  }

  function HeightBytes(t: Template): Bytes {
    Trim(LE(t.height, 8))
  }

  function MakeCoinbaseInitial(t: Template, arbitraryByteLength: nat): CoinbaseInitial {
    var heightBytes := HeightBytes(t);
    CoinbaseInitial("01000000", "01", ZERO_HASH, "ffffffff",
                    arbitraryByteLength + |heightBytes| + 1, |heightBytes|, HexEncode(heightBytes))
  }

  method CoinbaseInitialFor(t: Template, arbitraryByteLength: nat) returns (initial: CoinbaseInitial)
    ensures initial == MakeCoinbaseInitial(t, arbitraryByteLength)
  {
    var heightBytes := EightLittleEndianBytes(t.height);
    heightBytes := RemoveInsignificantBytes(heightBytes);
    initial := CoinbaseInitial("01000000", "01", ZERO_HASH, "ffffffff",
                               arbitraryByteLength + |heightBytes| + 1, |heightBytes|, HexEncode(heightBytes));
  }

  function TransactionOut(amount: string, pubScriptKey: string): Outcome<string> {
    var length :- VarUintHex(|pubScriptKey| / 2);
    Ok(amount + length + pubScriptKey)
  }

  /** The number of outputs and their text: the witness commitment, if any, then the reward. */
  function OutputsHex(t: Template, poolPubScriptKey: string): Outcome<(nat, string)> {
    var commitment :- if t.defaultWitnessCommitment == "" then Ok("")
                      else TransactionOut(ZERO_AMOUNT, t.defaultWitnessCommitment);
    var reward :- TransactionOut(ReverseBlocks(FormatHex(t.coinbaseValue, 16), 2), poolPubScriptKey);
    Ok((if t.defaultWitnessCommitment == "" then 1 else 2, commitment + reward))
  }

  method CoinbaseTransactionOutputs(t: Template, poolPubScriptKey: string) returns (r: Outcome<(nat, string)>)
    ensures r == OutputsHex(t, poolPubScriptKey)
  {
    var outputsCount := 0;
    var outputs := "";
    if t.defaultWitnessCommitment != "" {
      var outAmount := ZERO_AMOUNT;
      var out :- TransactionOut(outAmount, t.defaultWitnessCommitment);
      assert outputs + out == out;
      outputs := outputs + out;
      outputsCount := outputsCount + 1;
    }
    RewardText(t.coinbaseValue);
    var rewardAmount := FormatHex(t.coinbaseValue, 16);
    var reversed := ReverseHexBytes(rewardAmount);
    outputsCount := outputsCount + 1;
    var out :- TransactionOut(if reversed.Ok? then reversed.value else "", poolPubScriptKey);
    return Ok((outputsCount, outputs + out));
  }

  /** Sixteen digits, pairs reversed: the eight little-endian bytes of the reward. */
  lemma RewardText(value: uint64)
    ensures |FormatHex(value, 16)| == 16
    ensures Spells(ReverseBlocks(FormatHex(value, 16), 2), LE(value, 8))
  {
    assert Pow16(4) == 0x1_0000;
    assert Pow16(8) == 0x1_0000 * Pow16(4);
    assert Pow16(12) == 0x1_0000 * Pow16(8);
    assert Pow16(16) == 0x1_0000 * Pow16(12);
    FormatHexFixed(value, 16);
    FixedHexSpells(value, 8);
  }

  datatype CoinbaseFinal = CoinbaseFinal(
    transactionInSequence: string,
    outputCount: nat,
    txOuts: string,
    transactionLockTime: string)
  {
    function Serialize(): Outcome<string> {
      var count :- VarUintHex(outputCount);
      Ok(transactionInSequence + count + txOuts + transactionLockTime)
    }
  }

  function MakeCoinbaseFinal(t: Template, poolPayoutPubScriptKey: string): Outcome<CoinbaseFinal> {
    var outputs :- OutputsHex(t, poolPayoutPubScriptKey);
    Ok(CoinbaseFinal("00000000", outputs.0, outputs.1, "00000000"))
  }

  // ---- The transaction these pieces are meant to make --------------------------------

  /** The coinbase script: pushed height bytes, the extranonce, and the pool's own bytes behind
      a one-byte length. */
  function Script(t: Template, extranonce: Bytes, arbitrary: Bytes): Bytes {
    [|HeightBytes(t)|] + HeightBytes(t) + extranonce + BytesWithLengthHeader(arbitrary)
  }

  /** Lengths past 255 wrap around in the length byte. */
  function BytesWithLengthHeader(b: Bytes): Bytes {
    [|b| % 256] + b
  }

  /** What a reader of a coinbase script finds: a length, that many height bytes, the extranonce, and
      the pool's own bytes behind their length. The height bytes stand for the height exactly when no
      zero byte lies inside it, and for less otherwise; and they are the ones BIP 34 asks for exactly
      when also the top bit of the last one is clear. */
  ghost predicate CarriesHeight(script: Bytes, height: uint64, extranonce: Bytes, arbitrary: Bytes) {
    && script != [] && 1 + script[0] <= |script|
    && var size := script[0];
    && var bytes := script[1..1 + size];
    && FromLE(bytes) <= height && (FromLE(bytes) == height <==> !InnerZero(LE(height, 8)))
    && (height > 0 ==> size > 0 && (bytes == ScriptNumber(height) <==> !InnerZero(LE(height, 8)) && bytes[size - 1] < 128))
    && script[1 + size..] == extranonce + [|arbitrary| % 256] + arbitrary
  }

  lemma ScriptParts(bytes: Bytes, extranonce: Bytes, size: byte, arbitrary: Bytes)
    requires |bytes| < 256
    ensures var script := [|bytes|] + bytes + extranonce + ([size] + arbitrary);
      script[0] == |bytes| && script[1..1 + |bytes|] == bytes && script[1 + |bytes|..] == extranonce + [size] + arbitrary
  {
  }

  lemma ScriptCarriesHeight(t: Template, extranonce: Bytes, arbitrary: Bytes)
    ensures CarriesHeight(Script(t, extranonce, arbitrary), t.height, extranonce, arbitrary)
  {
    hide ScriptNumber, FromLE, LE, InnerZero, Trim;
    ScriptParts(HeightBytes(t), extranonce, |arbitrary| % 256, arbitrary);
    HeightValue(t.height);
    if t.height > 0 {
      HeightMeetsBip34(t.height);
    }
  }

  ghost predicate ScriptsDecode(t: Template, pubScriptKey: string) {
    HexDecode(t.defaultWitnessCommitment).Some? && HexDecode(pubScriptKey).Some?
  }

  ghost function IntendedOutputs(t: Template, pubScriptKey: string): seq<TxOut>
    requires ScriptsDecode(t, pubScriptKey)
  {
    (if t.defaultWitnessCommitment == "" then [] else [TxOut(0, HexDecode(t.defaultWitnessCommitment).value)])
    + [TxOut(t.coinbaseValue, HexDecode(pubScriptKey).value)]
  }

  ghost function IntendedCoinbase(t: Template, pubScriptKey: string, extranonce: Bytes, arbitrary: Bytes): Tx
    requires ScriptsDecode(t, pubScriptKey)
  {
    Tx(1, [TxIn(seq(32, _ => 0), 0xffff_ffff, Script(t, extranonce, arbitrary), 0)],
       IntendedOutputs(t, pubScriptKey), 0)
  }

  /** A length the code can write. */
  predicate Streamable(n: nat) {
    n != 253 && n < 0x1_0000_0000_0000_0000
  }

  lemma VarUintSpells(n: nat)
    ensures VarUintHex(n).Ok? <==> Streamable(n)
    ensures !VarUintHex(n).Err?
    ensures Streamable(n) ==> Spells(VarUintHex(n).value, CompactSize.Write(n))
  {
    if Streamable(n) {
      DecodeEncode(CompactSize.Write(n));
    }
  }

  lemma {:induction false} ZeroBytes(n: nat)
    ensures LE(0, n) == seq(n, _ => 0)
  {
    if n > 0 {
      ZeroBytes(n - 1);
    }
  }

  lemma FourBytes()
    ensures Spells("01000000", LE(1, 4)) && Spells("00000000", LE(0, 4)) && Spells("ffffffff", LE(0xffff_ffff, 4))
    ensures Spells("01", CompactSize.Write(1))
  {
    PairSpells(0, 1);
    ZeroBytes(4);
    SpellsZeros("00000000");
    OneSpells();
    OnesSpell();
  }

  lemma OneSpells()
    ensures Spells("01000000", LE(1, 4))
  {
    PairSpells(0, 1);
    ZeroBytes(3);
    SpellsZeros("000000");
    SpellsAppend("01", [1], "000000", seq(3, _ => 0));
    assert "01" + "000000" == "01000000";
    assert LE(1, 4) == [1] + LE(0, 3);
  }

  lemma OnesSpell()
    ensures Spells("ffffffff", LE(0xffff_ffff, 4))
  {
    PairSpells(15, 15);
    SpellsAppend("ff", [255], "ff", [255]);
    assert "ff" + "ff" == "ffff" && [255] + [255] == [255, 255];
    SpellsAppend("ffff", [255, 255], "ffff", [255, 255]);
    assert "ffff" + "ffff" == "ffffffff";
    assert LE(0xffff, 2) == [255, 255] && LE(0xffff_ffff, 4) == [255, 255] + LE(0xffff, 2);
  }

  lemma TransactionOutSpells(amount: string, value: nat, pubScriptKey: string)
    requires Spells(amount, LE(value, 8)) && HexDecode(pubScriptKey).Some? && value < Pow256(8)
    ensures TransactionOut(amount, pubScriptKey).Ok? <==> Streamable(|pubScriptKey| / 2)
    ensures !TransactionOut(amount, pubScriptKey).Err?
    ensures Streamable(|pubScriptKey| / 2) ==>
      var out := TxOut(value, HexDecode(pubScriptKey).value);
      WellFormedOut(out) && Spells(TransactionOut(amount, pubScriptKey).value, OutBytes(out))
  {
    var n, script := |pubScriptKey| / 2, HexDecode(pubScriptKey).value;
    VarUintSpells(n);
    if Streamable(n) {
      var length := VarUintHex(n).value;
      SpellsAppend(amount, LE(value, 8), length, CompactSize.Write(n));
      SpellsAppend(amount + length, LE(value, 8) + CompactSize.Write(n), pubScriptKey, script);
      Group2(LE(value, 8), CompactSize.Write(n), script);
      assert n == |script|;
      assert VarBytes(script) == CompactSize.Write(n) + script;
      assert OutBytes(TxOut(value, script)) == LE(value, 8) + CompactSize.Write(n) + script;
      assert TransactionOut(amount, pubScriptKey).value == amount + length + pubScriptKey;
    }
  }

  predicate OutputsStreamable(t: Template, pubScriptKey: string) {
    (t.defaultWitnessCommitment != "" ==> Streamable(|t.defaultWitnessCommitment| / 2)) && Streamable(|pubScriptKey| / 2)
  }

  lemma OutputsSpell(t: Template, pubScriptKey: string)
    requires ScriptsDecode(t, pubScriptKey) && OutputsStreamable(t, pubScriptKey)
    ensures var outs := IntendedOutputs(t, pubScriptKey);
      && (forall o | o in outs :: WellFormedOut(o))
      && OutputsHex(t, pubScriptKey).Ok? && OutputsHex(t, pubScriptKey).value.0 == |outs|
      && Spells(OutputsHex(t, pubScriptKey).value.1, OutsBytes(outs))
  {
    Pow256Values();
    RewardText(t.coinbaseValue);
    var amount := ReverseBlocks(FormatHex(t.coinbaseValue, 16), 2);
    TransactionOutSpells(amount, t.coinbaseValue, pubScriptKey);
    var reward := TxOut(t.coinbaseValue, HexDecode(pubScriptKey).value);
    var rewardText := TransactionOut(amount, pubScriptKey).value;
    OneOutput(reward);
    if t.defaultWitnessCommitment == "" {
      assert "" + rewardText == rewardText;
      assert IntendedOutputs(t, pubScriptKey) == [reward];
    } else {
      TwoOutputsSpell(t.defaultWitnessCommitment, rewardText, reward);
    }
  }

  lemma TwoOutputsSpell(commitmentText: string, rewardText: string, reward: TxOut)
    requires HexDecode(commitmentText).Some? && Streamable(|commitmentText| / 2)
    requires WellFormedOut(reward) && Spells(rewardText, OutBytes(reward))
    ensures var commitment := TxOut(0, HexDecode(commitmentText).value);
      && WellFormedOut(commitment) && TransactionOut(ZERO_AMOUNT, commitmentText).Ok?
      && Spells(TransactionOut(ZERO_AMOUNT, commitmentText).value + rewardText, OutsBytes([commitment, reward]))
  {
    CommitmentSpells(commitmentText);
    var commitment := TxOut(0, HexDecode(commitmentText).value);
    SpellsAppend(TransactionOut(ZERO_AMOUNT, commitmentText).value, OutBytes(commitment), rewardText, OutBytes(reward));
    TwoOutputs(commitment, reward);
  }

  lemma CommitmentSpells(commitmentText: string)
    requires HexDecode(commitmentText).Some? && Streamable(|commitmentText| / 2)
    ensures var commitment := TxOut(0, HexDecode(commitmentText).value);
      && WellFormedOut(commitment) && TransactionOut(ZERO_AMOUNT, commitmentText).Ok?
      && Spells(TransactionOut(ZERO_AMOUNT, commitmentText).value, OutBytes(commitment))
  {
    Pow256Values();
    ZeroAmount();
    TransactionOutSpells(ZERO_AMOUNT, 0, commitmentText);
  }

  lemma TwoOutputs(a: TxOut, b: TxOut)
    requires WellFormedOut(a) && WellFormedOut(b)
    ensures OutsBytes([a, b]) == OutBytes(a) + OutBytes(b)
  {
    OneOutput(b);
    assert [a, b][1..] == [b];
  }

  lemma OneOutput(o: TxOut)
    requires WellFormedOut(o)
    ensures OutsBytes([o]) == OutBytes(o)
  {
    assert [o][1..] == [];
    assert OutBytes(o) + [] == OutBytes(o);
  }

  lemma ZeroAmount()
    ensures Spells(ZERO_AMOUNT, LE(0, 8))
  {
    ZeroBytes(8);
    SpellsZeros(ZERO_AMOUNT);
  }

  ghost function InitialBytes(t: Template, total: nat): Bytes
    requires Streamable(total)
  {
    PrefixBytes() + CompactSize.Write(total) + [|HeightBytes(t)|] + HeightBytes(t)
  }

  lemma InitialSpells(t: Template, arbitraryByteLength: nat)
    ensures var total := arbitraryByteLength + |HeightBytes(t)| + 1;
      var text := MakeCoinbaseInitial(t, arbitraryByteLength).Serialize();
      && (text.Ok? <==> Streamable(total)) && !text.Err?
      && (text.Ok? ==> Spells(text.value, InitialBytes(t, total)))
  {
    var hb := HeightBytes(t);
    var total := arbitraryByteLength + |hb| + 1;
    VarUintSpells(total);
    VarUintSpells(|hb|);
    if Streamable(total) {
      PrefixSpells();
      DecodeEncode(hb);
      var s, b := PREFIX, PrefixBytes();
      var size, hSize := VarUintHex(total).value, VarUintHex(|hb|).value;
      SpellsAppend(s, b, size, CompactSize.Write(total));
      SpellsAppend(s + size, b + CompactSize.Write(total), hSize, [|hb|]);
      SpellsAppend(s + size + hSize, b + CompactSize.Write(total) + [|hb|], HexEncode(hb), hb);
    }
  }

  const PREFIX: string := "01000000" + "01" + ZERO_HASH + "ffffffff"

  ghost function PrefixBytes(): Bytes {
    LE(1, 4) + CompactSize.Write(1) + seq(32, _ => 0) + LE(0xffff_ffff, 4)
  }

  lemma ZeroTextJoins(s: string, t: string)
    requires ZeroText(s) && ZeroText(t)
    ensures ZeroText(s + t)
  {
  }

  lemma ZeroHashSpells()
    ensures Spells(ZERO_HASH, seq(32, _ => 0))
  {
    ZeroTextJoins(ZERO_AMOUNT, ZERO_AMOUNT);
    ZeroTextJoins(ZERO_AMOUNT + ZERO_AMOUNT, ZERO_AMOUNT);
    ZeroTextJoins(ZERO_AMOUNT + ZERO_AMOUNT + ZERO_AMOUNT, ZERO_AMOUNT);
    SpellsZeros(ZERO_HASH);
  }

  /** Everything before the script: version, one input, and its null outpoint. */
  lemma PrefixSpells()
    ensures Spells(PREFIX, PrefixBytes())
  {
    FourBytes();
    ZeroHashSpells();
    var zeros: Bytes := seq(32, _ => 0);
    SpellsAppend("01000000", LE(1, 4), "01", CompactSize.Write(1));
    SpellsAppend("01000000" + "01", LE(1, 4) + CompactSize.Write(1), ZERO_HASH, zeros);
    SpellsAppend("01000000" + "01" + ZERO_HASH, LE(1, 4) + CompactSize.Write(1) + zeros, "ffffffff", LE(0xffff_ffff, 4));
  }

  ghost function FinalBytes(outs: seq<TxOut>): Bytes
    requires |outs| < 0x1_0000_0000_0000_0000 && forall o | o in outs :: WellFormedOut(o)
  {
    LE(0, 4) + CompactSize.Write(|outs|) + OutsBytes(outs) + LE(0, 4)
  }

  lemma FinalSpells(t: Template, pubScriptKey: string)
    requires ScriptsDecode(t, pubScriptKey) && OutputsStreamable(t, pubScriptKey)
    ensures var outs := IntendedOutputs(t, pubScriptKey);
      && (forall o | o in outs :: WellFormedOut(o))
      && MakeCoinbaseFinal(t, pubScriptKey).Ok?
      && MakeCoinbaseFinal(t, pubScriptKey).value.Serialize().Ok?
      && Spells(MakeCoinbaseFinal(t, pubScriptKey).value.Serialize().value, FinalBytes(outs))
  {
    var outs := IntendedOutputs(t, pubScriptKey);
    OutputsSpell(t, pubScriptKey);
    VarUintSpells(|outs|);
    FourBytes();
    var count, texts := VarUintHex(|outs|).value, OutputsHex(t, pubScriptKey).value.1;
    SpellsAppend("00000000", LE(0, 4), count, CompactSize.Write(|outs|));
    SpellsAppend("00000000" + count, LE(0, 4) + CompactSize.Write(|outs|), texts, OutsBytes(outs));
    SpellsAppend("00000000" + count + texts, LE(0, 4) + CompactSize.Write(|outs|) + OutsBytes(outs), "00000000", LE(0, 4));
  }

  /** The split form and the reference form hold the same parts in the same order. */
  lemma Regroup(version: Bytes, ins: Bytes, zeros: Bytes, index: Bytes, size: Bytes, hSize: Bytes, hb: Bytes,
                ex: Bytes, arb: Bytes, sequence: Bytes, outs: Bytes, texts: Bytes, lock: Bytes)
    ensures (version + ins + zeros + index + size + hSize + hb + ex) + (arb + (sequence + outs + texts + lock))
      == version + ins + ((zeros + index + (size + (hSize + hb + ex + arb)) + sequence) + []) + outs + texts + lock
  {
    var tail := outs + (texts + lock);
    Group8(version, ins, zeros, index, size, hSize, hb, ex, arb + (sequence + outs + texts + lock));
    Group3(sequence, outs, texts, lock);
    var script := hSize + hb + ex + arb;
    var input := zeros + index + (size + script) + sequence;
    assert input + [] == input;
    Group5(version, ins, input, outs, texts, lock);
    Group4(zeros, index, size + script, sequence, tail);
    Group2(size, script, sequence + tail);
    Group4(hSize, hb, ex, arb, sequence + tail);
  }

  /** The three parts of a coinbase, put together, are the reference form of the intended
      transaction: the declared script length is the real one when the extranonce has exactly
      the reserved size. */
  lemma CoinbaseSpells(t: Template, pubScriptKey: string, arbitrary: Bytes, reserved: nat, exText: string, ex: Bytes)
    requires ScriptsDecode(t, pubScriptKey) && OutputsStreamable(t, pubScriptKey)
    requires Streamable(|BytesWithLengthHeader(arbitrary)| + reserved + |HeightBytes(t)| + 1)
    requires Spells(exText, ex) && |ex| == reserved
    ensures var tx := IntendedCoinbase(t, pubScriptKey, ex, arbitrary);
      var initial := MakeCoinbaseInitial(t, |BytesWithLengthHeader(arbitrary)| + reserved).Serialize();
      && WellFormedTx(tx) && initial.Ok? && MakeCoinbaseFinal(t, pubScriptKey).Ok?
      && var final := MakeCoinbaseFinal(t, pubScriptKey).value.Serialize();
      && final.Ok?
      && Spells(initial.value + exText + (HexEncode(BytesWithLengthHeader(arbitrary)) + final.value), TxBytes(tx))
      && CarriesHeight(tx.inputs[0].script, t.height, ex, arbitrary)
  {
    hide CarriesHeight;
    ScriptCarriesHeight(t, ex, arbitrary);
    var tx := IntendedCoinbase(t, pubScriptKey, ex, arbitrary);
    var outs, hb, arb := tx.outputs, HeightBytes(t), BytesWithLengthHeader(arbitrary);
    var total := |arb| + reserved + |hb| + 1;
    InitialSpells(t, |arb| + reserved);
    FinalSpells(t, pubScriptKey);
    DecodeEncode(arb);
    var initial := MakeCoinbaseInitial(t, |arb| + reserved).Serialize().value;
    var final := MakeCoinbaseFinal(t, pubScriptKey).value.Serialize().value;
    SpellsAppend(initial, InitialBytes(t, total), exText, ex);
    SpellsAppend(HexEncode(arb), arb, final, FinalBytes(outs));
    SpellsAppend(initial + exText, InitialBytes(t, total) + ex, HexEncode(arb) + final, arb + FinalBytes(outs));
    IntendedWellFormed(t, pubScriptKey, ex, arbitrary);
    CoinbaseRegroups(t, pubScriptKey, arbitrary, ex);
  }

  lemma IntendedWellFormed(t: Template, pubScriptKey: string, ex: Bytes, arbitrary: Bytes)
    requires ScriptsDecode(t, pubScriptKey)
    requires |Script(t, ex, arbitrary)| < 0x1_0000_0000_0000_0000
    requires forall o | o in IntendedOutputs(t, pubScriptKey) :: WellFormedOut(o)
    ensures WellFormedTx(IntendedCoinbase(t, pubScriptKey, ex, arbitrary))
  {
    Pow256Values();
  }

  lemma CoinbaseRegroups(t: Template, pubScriptKey: string, arbitrary: Bytes, ex: Bytes)
    requires ScriptsDecode(t, pubScriptKey)
    requires WellFormedTx(IntendedCoinbase(t, pubScriptKey, ex, arbitrary))
    requires Streamable(|Script(t, ex, arbitrary)|)
    ensures (InitialBytes(t, |Script(t, ex, arbitrary)|) + ex)
            + (BytesWithLengthHeader(arbitrary) + FinalBytes(IntendedOutputs(t, pubScriptKey)))
      == TxBytes(IntendedCoinbase(t, pubScriptKey, ex, arbitrary))
  {
    var tx := IntendedCoinbase(t, pubScriptKey, ex, arbitrary);
    var script := Script(t, ex, arbitrary);
    assert tx.inputs[1..] == [];
    assert InsBytes(tx.inputs[1..]) == [];
    Regroup(LE(1, 4), CompactSize.Write(1), seq(32, _ => 0), LE(0xffff_ffff, 4), CompactSize.Write(|script|),
            [|HeightBytes(t)|], HeightBytes(t), ex, BytesWithLengthHeader(arbitrary),
            LE(0, 4), CompactSize.Write(|tx.outputs|), OutsBytes(tx.outputs), LE(0, 4));
  }
}
