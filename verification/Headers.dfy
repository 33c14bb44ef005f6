/** bitcoin/header.go: the 80-byte block header. */
module Headers {
  import opened Outcomes
  import opened Bytes
  import opened Encoding
  import opened BlockFormat

  /** The header's bytes: everything but the Merkle root is turned round. */
  function RawHeader(version: nat, prev: Bytes, root: Bytes, time: Bytes, bits: Bytes, nonce: Bytes): Bytes {
    LE(version, 4) + Reverse(prev) + root + Reverse(time) + Reverse(bits) + Reverse(nonce)
  }

  /** What `blockHeader` returns. */
  function HeaderHex(version: nat, previousBlockHash: string, merkleRootHex: string,
                     nTime: string, bits: string, nonce: string): Outcome<string> {
    var prev :- OrErr(HexDecode(previousBlockHash));
    var root :- OrErr(HexDecode(merkleRootHex));
    var time :- OrErr(HexDecode(nTime));
    var target :- OrErr(HexDecode(bits));
    var tries :- OrErr(HexDecode(nonce));
    Ok(HexEncode(RawHeader(version, prev, root, time, target, tries)))
  }

  method BlockHeader(version: nat, previousBlockHash: string, merkleRootHex: string,
                     nTime: string, bits: string, nonce: string) returns (r: Outcome<string>)
    ensures r == HeaderHex(version, previousBlockHash, merkleRootHex, nTime, bits, nonce)
  {
    var versionBytes := FourLittleEndianBytes(version);
    var prevBlockHash :- OrErr(HexDecode(previousBlockHash));
    var merkleRoot :- OrErr(HexDecode(merkleRootHex));
    var nonceTime :- OrErr(HexDecode(nTime));
    var bitsHex :- OrErr(HexDecode(bits));
    var nonceHex :- OrErr(HexDecode(nonce));

    var blockHeader := versionBytes;
    var reversed := ReverseBytes(prevBlockHash);
    blockHeader := blockHeader + reversed;
    blockHeader := blockHeader + merkleRoot;
    reversed := ReverseBytes(nonceTime);
    blockHeader := blockHeader + reversed;
    reversed := ReverseBytes(bitsHex);
    blockHeader := blockHeader + reversed;
    reversed := ReverseBytes(nonceHex);
    blockHeader := blockHeader + reversed;
    return Ok(HexEncode(blockHeader));
  }

  /** The number a big-endian byte string stands for. */
  function FromBE(b: Bytes): nat {
    FromLE(Reverse(b))
  }

  ghost predicate HeaderSizes(prev: Bytes, root: Bytes, time: Bytes, bits: Bytes, nonce: Bytes) {
    |prev| == 32 && |root| == 32 && |time| == 4 && |bits| == 4 && |nonce| == 4
  }

  /** The header these parts are meant to make: the previous hash in wire order, the root as
      given, and the other three as big-endian numbers. */
  function IntendedHeader(version: nat, prev: Bytes, root: Bytes, time: Bytes, bits: Bytes, nonce: Bytes): Header {
    Header(version % 0x1_0000_0000, Reverse(prev), root, FromBE(time), FromBE(bits), FromBE(nonce))
  }

  /** With parts of the right sizes the bytes are the reference form of the intended header. */
  lemma RawHeaderIsHeader(version: nat, prev: Bytes, root: Bytes, time: Bytes, bits: Bytes, nonce: Bytes)
    requires HeaderSizes(prev, root, time, bits, nonce)
    ensures WellFormedHeader(IntendedHeader(version, prev, root, time, bits, nonce))
    ensures RawHeader(version, prev, root, time, bits, nonce)
            == HeaderBytes(IntendedHeader(version, prev, root, time, bits, nonce))
  {
    Pow256Values();
    LETruncates(version, 4);
    LEOfFromLE(LE(version, 4));
    FourByteNumber(Reverse(time));
    FourByteNumber(Reverse(bits));
    FourByteNumber(Reverse(nonce));
  }

  lemma FourByteNumber(b: Bytes)
    requires |b| == 4
    ensures FromLE(b) < Pow256(4) && LE(FromLE(b), 4) == b
  {
    FromLEBound(b);
    LEOfFromLE(b);
  }

  lemma Fields(v: Bytes, p: Bytes, r: Bytes, t: Bytes, b: Bytes, n: Bytes)
    requires |v| == 4 && |p| == 32 && |r| == 32 && |t| == 4 && |b| == 4 && |n| == 4
    ensures var h := v + p + r + t + b + n; h[36..68] == r && h[68..72] == t && h[76..80] == n
  {
  }

  /** For fixed version, previous hash and bits, the header determines the rest. */
  lemma RawHeaderDetermines(version: nat, prev: Bytes, bits: Bytes, root1: Bytes, time1: Bytes, nonce1: Bytes,
                            root2: Bytes, time2: Bytes, nonce2: Bytes)
    requires HeaderSizes(prev, root1, time1, bits, nonce1) && HeaderSizes(prev, root2, time2, bits, nonce2)
    requires RawHeader(version, prev, root1, time1, bits, nonce1) == RawHeader(version, prev, root2, time2, bits, nonce2)
    ensures root1 == root2 && time1 == time2 && nonce1 == nonce2
  {
    Fields(LE(version, 4), Reverse(prev), root1, Reverse(time1), Reverse(bits), Reverse(nonce1));
    Fields(LE(version, 4), Reverse(prev), root2, Reverse(time2), Reverse(bits), Reverse(nonce2));
    ReverseTwice(time1);
    ReverseTwice(time2);
    ReverseTwice(nonce1);
    ReverseTwice(nonce2);
  }

  /** The decoded text of a header whose parts all decode. */
  lemma HeaderHexSpells(version: nat, prev: string, root: string, nTime: string, bits: string, nonce: string)
    requires HexDecode(prev).Some? && HexDecode(root).Some? && HexDecode(nTime).Some?
    requires HexDecode(bits).Some? && HexDecode(nonce).Some?
    ensures var text := HeaderHex(version, prev, root, nTime, bits, nonce);
      text.Ok? && Spells(text.value, RawHeader(version, HexDecode(prev).value, HexDecode(root).value,
                                               HexDecode(nTime).value, HexDecode(bits).value, HexDecode(nonce).value))
  {
    DecodeEncode(RawHeader(version, HexDecode(prev).value, HexDecode(root).value,
                           HexDecode(nTime).value, HexDecode(bits).value, HexDecode(nonce).value));
  }
}
