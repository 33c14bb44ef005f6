/** bitcoin/generator.go: what miners make of the packet that `GenerateWork` returns. */
module Packet {
  import opened Outcomes
  import opened Bytes
  import opened Encoding
  import opened Templates
  import opened Merkle
  import opened Coinbase
  import opened Headers
  import opened Generator
  import opened Submission
  import opened WorkSpace

  ghost predicate PacketDecodes(w: Work) {
    && HexDecode(w.coinb1).Some? && HexDecode(w.coinb2).Some? && AllDecode(w.merkleBranch)
    && HexDecode(w.version).Some? && HexDecode(SwapInWords(w.prevHash)).Some? && HexDecode(w.nBits).Some?
  }

  /** The header a miner hashes, made of nothing but the packet and its own choices: the coinbase is put
      together around the extranonce and folded through the branch, the previous hash has the bytes of
      each word swapped, and every number is turned round. */
  ghost function MinerHeader(H: Bytes -> Hash, w: Work, extranonce: Bytes, time: Bytes, nonce: Bytes): Bytes
    requires PacketDecodes(w)
  {
    var coinbase := HexDecode(w.coinb1).value + extranonce + HexDecode(w.coinb2).value;
    Reverse(HexDecode(w.version).value) + HexDecode(SwapInWords(w.prevHash)).value
    + Fold(H, H(coinbase), DecodeAll(w.merkleBranch))
    + Reverse(time) + Reverse(HexDecode(w.nBits).value) + Reverse(nonce)
  }

  lemma VersionText(version: nat)
    requires version < 0x1_0000_0000
    ensures Spells(FormatHex(version, 8), Reverse(LE(version, 4)))
  {
    assert Pow16(4) == 0x1_0000;
    assert Pow16(8) == 0x1_0000 * Pow16(4);
    FormatHexFixed(version, 8);
    var s := FixedHex(version, 8);
    FixedHexSpells(version, 4);
    ReversePairsDecodes(ReverseBlocks(s, 2));
    WholePairs(s);
    ReverseBlocksTwice(s, 2);
  }

  /** Miners and pool hash the same header: from the packet alone a miner makes, for any share, the
      bytes of the header that the pool makes of that share. */
  lemma PacketMakesHeader(H: Bytes -> Hash, t: Template, arbitrary: Bytes, pubScriptKey: string, reserved: nat, job: Job,
                          jobCounter: nat, aux: seq<AuxEntry>, share: Share, extranonce: Bytes, time: Bytes, nonce: Bytes)
    requires MakeJob(H, t, arbitrary, pubScriptKey, reserved) == Ok(job) && t.version < 0x1_0000_0000
    requires TemplateSizes(t) && ScriptsDecode(t, pubScriptKey) && IdsDecode(t, 0)
    requires Spells(share.extranonce, extranonce) && Spells(share.nonce, nonce) && Spells(share.nonceTime, time) && |nonce| == 4 && |time| == 4
    ensures var w := WorkOf(jobCounter, t, job, aux);
      && PacketDecodes(w)
      && HeaderText(H, t, job, share.extranonce, share.nonce, share.nonceTime).Ok?
      && Spells(HeaderText(H, t, job, share.extranonce, share.nonce, share.nonceTime).value, MinerHeader(H, w, extranonce, time, nonce))
  {
    GeneratedJobDecodes(H, t, arbitrary, pubScriptKey, reserved, job);
    BroadcastPreviousHash(H, t, arbitrary, pubScriptKey, reserved, job);
    HeaderTextDecodes(H, t, job, share.extranonce, extranonce, share.nonce, nonce, share.nonceTime, time);
    VersionText(t.version);
    ReverseTwice(LE(t.version, 4));
  }

  lemma {:induction false} LeadingZero(s: string)
    ensures DigitsToNat("0" + s) == DigitsToNat(s)
  {
    if s == "" {
      assert "0"[..0] == "" && DigitValue('0') == Some(0) && "0" + s == "0";
      assert DigitsToNat("") == Some(0);
    } else {
      LeadingZero(s[..|s| - 1]);
      assert ("0" + s)[..|s|] == "0" + s[..|s| - 1];
    }
  }

  lemma {:induction false} PaddedDigits(s: string, width: nat)
    ensures DigitsToNat(PadZero(s, width)) == DigitsToNat(s)
    decreases width - |s|
  {
    if |s| < width {
      LeadingZero(s);
      PaddedDigits("0" + s, width);
    }
  }

  /** How many aux blocks are not nil. */
  function Present(aux: seq<AuxEntry>): nat {
    if aux == [] then 0 else Present(aux[..|aux| - 1]) + if aux[|aux| - 1].hash.Some? then 1 else 0
  }

  lemma {:induction false} AuxTextsAre(aux: seq<AuxEntry>)
    ensures |AuxTexts(aux)| == Present(aux)
    ensures forall text :: text in AuxTexts(aux) <==> exists e :: e in aux && e.hash.Some? && text == e.chain + ":" + e.hash.value
  {
    if aux != [] {
      var front, last := aux[..|aux| - 1], aux[|aux| - 1];
      AuxTextsAre(front);
      assert aux == front + [last];
      assert forall e :: e in aux <==> e in front || e == last;
    }
  }

  /** The rest of the packet: the job id and the time read back as the counter and the template's time,
      so different jobs have different ids; and every aux block that is not nil is announced once. */
  lemma PacketNames(t: Template, job: Job, jobCounter: nat, aux: seq<AuxEntry>)
    ensures var w := WorkOf(jobCounter, t, job, aux);
      && DigitsToNat(w.jobId) == Some(jobCounter) && DigitsToNat(w.nTime) == Some(t.currentTime as nat)
      && |w.aux| == Present(aux)
      && forall text :: text in w.aux <==> exists e :: e in aux && e.hash.Some? && text == e.chain + ":" + e.hash.value
  {
    TextToNat(jobCounter);
    TextToNat(t.currentTime);
    PaddedDigits(HexText(jobCounter), 8);
    AuxTextsAre(aux);
  }
}
