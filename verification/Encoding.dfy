/** bitcoin/encoding.go: length prefixes, fixed-width numbers, height trimming and byte order. */
module Encoding {
  import opened Outcomes
  import opened Bytes
  import CompactSize

  // ---- binary.LittleEndian.PutUint16/32/64 ------------------------------------

  /** Fills a buffer with the low bytes of `value`. */
  method PutUint(buffer: array<byte>, value: nat)
    modifies buffer
    ensures buffer[..] == LE(value, buffer.Length)
  {
    var rest := value;
    for i := 0 to buffer.Length
      invariant LE(value, buffer.Length) == buffer[..i] + LE(rest, buffer.Length - i)
    {
      ghost var before := buffer[..i];
      buffer[i] := rest % 256;
      assert buffer[..i + 1] == before + [rest % 256];
      rest := rest / 256;
    }
    assert buffer[..buffer.Length] == buffer[..];
  }

  method FourLittleEndianBytes(value: nat) returns (b: Bytes)
    ensures b == LE(value, 4)
  {
    var buffer := new byte[4];
    PutUint(buffer, value);
    b := buffer[..];
  }

  method EightLittleEndianBytes(value: nat) returns (b: Bytes)
    ensures b == LE(value, 8)
  {
    var buffer := new byte[8];
    PutUint(buffer, value);
    b := buffer[..];
  }

  // ---- varUint ------------------------------------------------------------------

  /** What `varUint` returns; 253 reaches no branch but the panic. */
  function VarUintHex(value: nat): Outcome<string> {
    if value <= 252 then Ok(HexEncode([value]))
    else if 0xfd < value <= 0xffff then Ok(HexEncode([0xfd] + LE(value, 2)))
    else if 0xffff < value <= 0xffff_ffff then Ok(HexEncode([0xfe] + LE(value, 4)))
    else if 0xffff_ffff < value <= 0xffff_ffff_ffff_ffff then Ok(HexEncode([0xff] + LE(value, 8)))
    else Panic
  }

  method VarUint(value: uint64) returns (r: Outcome<string>)
    ensures r == VarUintHex(value)
  {
    var prefix, width;
    if value <= 252 {
      return Ok(HexEncode([value]));
    } else if value > 0xfd && value <= 0xffff {
      prefix, width := 0xfd, 2;
    } else if value > 0xffff && value <= 0xffff_ffff {
      prefix, width := 0xfe, 4;
    } else if value > 0xffff_ffff {
      prefix, width := 0xff, 8;
    } else {
      return Panic;
    }
    var buffer := new byte[width];
    PutUint(buffer, value);
    r := Ok(HexEncode([prefix] + buffer[..]));
  }

  /** On every 64-bit value but 253 the code writes the reference encoding; on 253 it panics. */
  lemma VarUintMeetsReference(v: uint64)
    ensures v != 253 ==> VarUintHex(v) == Ok(HexEncode(CompactSize.Write(v)))
    ensures VarUintHex(v).Panic? <==> v == 253
  {
  }

  /** The code's output is read back by a CompactSize reader whatever follows it. */
  lemma VarUintRoundTrip(v: uint64, rest: Bytes)
    requires v != 253
    ensures VarUintHex(v).Ok? && HexDecode(VarUintHex(v).value).Some?
    ensures CompactSize.Read(HexDecode(VarUintHex(v).value).value + rest) == Some((v, rest))
  {
    DecodeEncode(CompactSize.Write(v));
    CompactSize.ReadWrite(v, rest);
  }

  /** No output of the code starts another, and equal outputs come from equal values. */
  lemma VarUintPrefixFree(v: uint64, w: uint64, tail: string)
    requires VarUintHex(v).Ok? && VarUintHex(w).Ok?
    requires VarUintHex(v).value + tail == VarUintHex(w).value
    ensures v == w && tail == ""
  {
    var a, b := CompactSize.Write(v), CompactSize.Write(w);
    DecodeEncode(a);
    DecodeEncode(b);
    DecodeAppend(HexEncode(a), tail);
    var t := HexDecode(tail).value;
    CompactSize.ReadWrite(v, t);
    CompactSize.ReadWrite(w, []);
    assert b + [] == b;
  }

  // ---- removeInsignificantBytesLittleEndian ---------------------------------------

  function NonZero(b: Bytes): (r: Bytes) {
    if b == [] then [] else if b[0] == 0 then NonZero(b[1..]) else [b[0]] + NonZero(b[1..])
  }

  /** Zeros up to the first non-zero byte stay; every later zero goes, inner ones too. */
  function Trim(b: Bytes): (r: Bytes)
    ensures |r| <= |b|
  {
    if b == [] then [] else if b[0] == 0 then [0] + Trim(b[1..]) else NonZeroShorter(b); NonZero(b)
  }

  lemma NonZeroShorter(b: Bytes)
    ensures |NonZero(b)| <= |b|
  {
  }

  /** What the loop still has to add, once it has or has not met a non-zero byte. */
  function Rest(reached: bool, b: Bytes): Bytes {
    if reached then NonZero(b) else Trim(b)
  }

  lemma RestStep(cleaned: Bytes, reached: bool, b: Bytes)
    requires b != []
    ensures reached && b[0] == 0 ==> Rest(reached, b) == Rest(reached, b[1..])
    ensures !(reached && b[0] == 0) ==>
      cleaned + Rest(reached, b) == (cleaned + [b[0]]) + Rest(reached || b[0] != 0, b[1..])
  {
    var t := Rest(reached || b[0] != 0, b[1..]);
    assert cleaned + ([b[0]] + t) == (cleaned + [b[0]]) + t;
  }

  method RemoveInsignificantBytes(bytes: Bytes) returns (cleaned: Bytes)
    ensures cleaned == Trim(bytes)
  {
    cleaned := [];
    var weReachedASignificantByte := false;
    for i := 0 to |bytes|
      invariant Trim(bytes) == cleaned + Rest(weReachedASignificantByte, bytes[i..])
    {
      assert bytes[i..][1..] == bytes[i + 1..];
      RestStep(cleaned, weReachedASignificantByte, bytes[i..]);
      if weReachedASignificantByte && bytes[i] == 0 {
        continue;
      }
      cleaned := cleaned + [bytes[i]];
      if bytes[i] != 0 {
        weReachedASignificantByte := true;
      }
    }
  }

  /** A zero byte strictly between the first and the last non-zero byte. */
  ghost predicate InnerZero(b: Bytes) {
    exists i, j, k :: 0 <= i < j < k < |b| && b[i] != 0 && b[j] == 0 && b[k] != 0
  }

  ghost predicate ZeroBeforeNonZero(b: Bytes) {
    exists j, k :: 0 <= j < k < |b| && b[j] == 0 && b[k] != 0
  }

  lemma {:induction false} ZeroValue(b: Bytes)
    ensures FromLE(b) == 0 <==> forall k :: 0 <= k < |b| ==> b[k] == 0
  {
    if b != [] {
      ZeroValue(b[1..]);
      if FromLE(b) == 0 {
        forall k | 0 <= k < |b| ensures b[k] == 0 {
          assert k > 0 ==> b[k] == b[1..][k - 1];
        }
      }
    }
  }

  lemma {:induction false} NonZeroValue(b: Bytes)
    ensures FromLE(NonZero(b)) <= FromLE(b)
    ensures FromLE(NonZero(b)) == FromLE(b) <==> !ZeroBeforeNonZero(b)
  {
    if b != [] {
      var t := b[1..];
      NonZeroValue(t);
      ZeroValue(t);
      if ZeroBeforeNonZero(t) {
        var j, k :| 0 <= j < k < |t| && t[j] == 0 && t[k] != 0;
        assert b[j + 1] == 0 && b[k + 1] != 0;
      }
      if ZeroBeforeNonZero(b) && !ZeroBeforeNonZero(t) {
        var j, k :| 0 <= j < k < |b| && b[j] == 0 && b[k] != 0;
        assert t[k - 1] != 0;
        if j > 0 {
          assert t[j - 1] == 0;
        }
      }
      if b[0] == 0 && FromLE(t) != 0 {
        var k :| 0 <= k < |t| && t[k] != 0;
        assert b[k + 1] != 0;
      }
      if b[0] != 0 {
        assert NonZero(b)[1..] == NonZero(t);
      }
    }
  }

  lemma InnerZeroTail(b: Bytes)
    requires b != [] && b[0] == 0
    ensures InnerZero(b) <==> InnerZero(b[1..])
  {
    var t := b[1..];
    if InnerZero(t) {
      var i, j, k :| 0 <= i < j < k < |t| && t[i] != 0 && t[j] == 0 && t[k] != 0;
      assert b[i + 1] != 0 && b[j + 1] == 0 && b[k + 1] != 0;
    }
    if InnerZero(b) {
      var i, j, k :| 0 <= i < j < k < |b| && b[i] != 0 && b[j] == 0 && b[k] != 0;
      assert t[i - 1] != 0 && t[j - 1] == 0 && t[k - 1] != 0;
    }
  }

  lemma InnerZeroHead(b: Bytes)
    requires b != [] && b[0] != 0
    ensures InnerZero(b) <==> ZeroBeforeNonZero(b)
  {
    if ZeroBeforeNonZero(b) {
      var j, k :| 0 <= j < k < |b| && b[j] == 0 && b[k] != 0;
      assert b[0] != 0 && 0 < j;
    }
  }

  /** Trimming keeps the number exactly when it drops no inner zero, and otherwise lowers it. */
  lemma {:induction false} TrimValue(b: Bytes)
    ensures FromLE(Trim(b)) <= FromLE(b)
    ensures FromLE(Trim(b)) == FromLE(b) <==> !InnerZero(b)
  {
    if b != [] && b[0] == 0 {
      TrimValue(b[1..]);
      assert Trim(b)[1..] == Trim(b[1..]);
      InnerZeroTail(b);
    } else if b != [] {
      NonZeroValue(b);
      InnerZeroHead(b);
    }
  }

  /** The height bytes of the coinbase stand for the height exactly when no zero byte lies
      inside it; otherwise they stand for a smaller number. */
  lemma HeightValue(height: uint64)
    ensures var h := FromLE(Trim(LE(height, 8)));
      h <= height && (h == height <==> !InnerZero(LE(height, 8)))
  {
    Pow256Values();
    FromLEOfLE(height, 8);
    TrimValue(LE(height, 8));
  }

  /** The height bytes BIP 34 asks for: shortest little-endian form whose top bit is clear. */
  function ScriptNumber(v: nat): Bytes {
    if v < 128 then [v] else [v % 256] + ScriptNumber(v / 256)
  }

  lemma {:induction false} ScriptNumberValue(v: nat)
    ensures FromLE(ScriptNumber(v)) == v
  {
    if v >= 128 {
      ScriptNumberValue(v / 256);
      assert ScriptNumber(v)[1..] == ScriptNumber(v / 256);
    }
  }

  lemma {:induction false} ScriptNumberEnd(v: nat)
    ensures |ScriptNumber(v)| > 0 && ScriptNumber(v)[|ScriptNumber(v)| - 1] < 128
  {
    if v >= 128 {
      ScriptNumberEnd(v / 256);
    }
  }

  lemma {:induction false} ScriptNumberUnique(b: Bytes)
    requires |b| > 0 && 0 < b[|b| - 1] < 128
    ensures ScriptNumber(FromLE(b)) == b && FromLE(b) > 0
  {
    var t := b[1..];
    if |b| == 1 {
      assert t == [];
      assert b == [b[0]];
    } else {
      ScriptNumberUnique(t);
      assert FromLE(b) / 256 == FromLE(t) && FromLE(b) % 256 == b[0];
    }
  }

  lemma {:induction false} TrimEnd(b: Bytes)
    requires FromLE(b) > 0
    ensures |Trim(b)| > 0 && Trim(b)[|Trim(b)| - 1] > 0
  {
    if b[0] == 0 {
      TrimEnd(b[1..]);
    } else {
      NonZeroEnd(b);
    }
  }

  lemma {:induction false} NonZeroEnd(b: Bytes)
    ensures forall i :: 0 <= i < |NonZero(b)| ==> NonZero(b)[i] > 0
  {
    if b != [] {
      NonZeroEnd(b[1..]);
    }
  }

  /** The code's height bytes are the ones BIP 34 asks for exactly when the height has no inner
      zero byte and its most significant byte leaves the sign bit clear. */
  lemma HeightMeetsBip34(height: uint64)
    requires height > 0
    ensures var trimmed := Trim(LE(height, 8));
      |trimmed| > 0 &&
      (trimmed == ScriptNumber(height) <==> !InnerZero(LE(height, 8)) && trimmed[|trimmed| - 1] < 128)
  {
    Pow256Values();
    FromLEOfLE(height, 8);
    TrimEnd(LE(height, 8));
    HeightValue(height);
    ScriptNumberValue(height);
    ScriptNumberEnd(height);
    var trimmed := Trim(LE(height, 8));
    if trimmed[|trimmed| - 1] < 128 {
      ScriptNumberUnique(trimmed);
    }
  }

  // ---- reverse, reverseHexBytes, reverseHex4Bytes ------------------------------------

  method ReverseBytes(b: Bytes) returns (r: Bytes)
    ensures r == Reverse(b)
  {
    var out := new byte[|b|];
    for index := 0 to |b|
      invariant forall i :: 0 <= i < index ==> out[|b| - 1 - i] == b[i]
    {
      out[|b| - 1 - index] := b[index];
    }
    r := out[..];
    forall j | 0 <= j < |b| ensures r[j] == Reverse(b)[j] {
      ReverseIndex(b, |b| - 1 - j);
    }
  }

  /** The blocks of `k` characters in opposite order, each block kept as it is. */
  function ReverseBlocks(s: string, k: nat): (r: string)
    requires k > 0
  {
    if |s| < k then "" else ReverseBlocks(s[k..], k) + s[..k]
  }

  ghost predicate Whole(s: string, k: nat)
    requires k > 0
  {
    |s| == 0 || (|s| >= k && Whole(s[k..], k))
  }

  lemma {:induction false} WholeCount(s: string, n: nat, k: nat)
    requires k > 0 && |s| == k * n
    ensures Whole(s, k)
  {
    if n > 0 {
      assert k * n == k * (n - 1) + k;
      WholeCount(s[k..], n - 1, k);
    } else {
      assert k * n == 0;
    }
  }

  lemma {:induction false} WholePairs(s: string)
    requires |s| % 2 == 0
    ensures Whole(s, 2)
  {
    if |s| > 0 {
      WholePairs(s[2..]);
    }
  }

  lemma {:induction false} WholeWords(s: string)
    requires |s| % 8 == 0
    ensures Whole(s, 8)
  {
    if |s| > 0 {
      WholeWords(s[8..]);
    }
  }

  lemma {:induction false} ReverseBlocksLength(s: string, k: nat)
    requires k > 0 && Whole(s, k)
    ensures |ReverseBlocks(s, k)| == |s|
  {
    if |s| > 0 {
      ReverseBlocksLength(s[k..], k);
    }
  }

  lemma {:induction false} ReverseBlocksAppend(s: string, t: string, k: nat)
    requires k > 0 && Whole(s, k) && Whole(t, k)
    ensures Whole(s + t, k)
    ensures ReverseBlocks(s + t, k) == ReverseBlocks(t, k) + ReverseBlocks(s, k)
  {
    if |s| == 0 {
      assert s + t == t;
    } else {
      ReverseBlocksAppend(s[k..], t, k);
      assert (s + t)[k..] == s[k..] + t && (s + t)[..k] == s[..k];
      assert (ReverseBlocks(t, k) + ReverseBlocks(s[k..], k)) + s[..k] == ReverseBlocks(t, k) + (ReverseBlocks(s[k..], k) + s[..k]);
    }
  }

  lemma OneBlock(w: string, k: nat)
    requires k > 0 && |w| == k
    ensures Whole(w, k) && ReverseBlocks(w, k) == w
  {
    assert w[k..] == "" && w[..k] == w;
    assert ReverseBlocks("", k) == "";
  }

  lemma {:induction false} ReverseBlocksWhole(s: string, k: nat)
    requires k > 0 && Whole(s, k)
    ensures Whole(ReverseBlocks(s, k), k)
  {
    if |s| > 0 {
      ReverseBlocksWhole(s[k..], k);
      OneBlock(s[..k], k);
      ReverseBlocksAppend(ReverseBlocks(s[k..], k), s[..k], k);
    }
  }

  /** Reversing the blocks twice gives the string back. */
  lemma {:induction false} ReverseBlocksTwice(s: string, k: nat)
    requires k > 0 && Whole(s, k)
    ensures ReverseBlocks(ReverseBlocks(s, k), k) == s
  {
    if |s| > 0 {
      var w, t := s[..k], s[k..];
      ReverseBlocksTwice(t, k);
      ReverseBlocksWhole(t, k);
      OneBlock(w, k);
      ReverseBlocksAppend(ReverseBlocks(t, k), w, k);
      assert w + t == s;
    }
  }

  /** The last block of a prefix comes first in its reversal. */
  lemma LastBlock(s: string, from: nat, to: nat, k: nat)
    requires k > 0 && from + k == to <= |s| && Whole(s[..from], k)
    ensures ReverseBlocks(s[..to], k) == s[from..to] + ReverseBlocks(s[..from], k)
  {
    OneBlock(s[from..to], k);
    ReverseBlocksAppend(s[..from], s[from..to], k);
    assert s[..to] == s[..from] + s[from..to];
  }

  method ReverseHexBytes(hex: string) returns (r: Outcome<string>)
    ensures r == if |hex| % 2 == 0 then Ok(ReverseBlocks(hex, 2)) else Err
  {
    if |hex| % 2 != 0 {
      return Err;
    }
    var o := "";
    var i := |hex|;
    ghost var left: nat := |hex| / 2;
    assert hex[..i] == hex;
    while i > 0
      invariant 0 <= i == 2 * left <= |hex|
      invariant ReverseBlocks(hex, 2) == o + ReverseBlocks(hex[..i], 2)
    {
      WholeCount(hex[..i - 2], left - 1, 2);
      LastBlock(hex, i - 2, i, 2);
      Group2(o, hex[i - 2..i], ReverseBlocks(hex[..i - 2], 2));
      o := o + hex[i - 2..i];
      i := i - 2;
      left := left - 1;
    }
    assert hex[..0] == "" && ReverseBlocks("", 2) == "" && o + "" == o;
    r := Ok(o);
  }

  method ReverseHex4Bytes(hex: string) returns (r: Outcome<string>)
    ensures r == if |hex| % 8 == 0 then Ok(ReverseBlocks(hex, 8)) else Err
  {
    if |hex| % 8 != 0 {
      return Err;
    }
    var o := "";
    var l, i := |hex|, 0;
    var words := l / 8;
    assert hex[..l] == hex;
    while i < words
      invariant 0 <= i <= words && l == 8 * words
      invariant ReverseBlocks(hex, 8) == o + ReverseBlocks(hex[..l - 8 * i], 8)
    {
      var from, to := l - 8 * (i + 1), l - 8 * i;
      WholeCount(hex[..from], words - i - 1, 8);
      LastBlock(hex, from, to, 8);
      Group2(o, hex[from..to], ReverseBlocks(hex[..from], 8));
      o := o + hex[from..to];
      i := i + 1;
    }
    assert hex[..0] == "" && ReverseBlocks("", 8) == "" && o + "" == o;
    r := Ok(o);
  }

  /** Reversing the pairs of a hexadecimal string reverses the bytes it stands for. */
  lemma {:induction false} ReversePairsDecodes(s: string)
    requires HexDecode(s).Some?
    ensures HexDecode(ReverseBlocks(s, 2)) == Some(Reverse(HexDecode(s).value))
  {
    if |s| > 0 {
      var b := HexDecode(s).value;
      ReversePairsDecodes(s[2..]);
      assert HexDecode(s[..2]) == Some([b[0]]) by {
        assert s[..2][2..] == "" && HexDecode("") == Some([]);
        assert s[..2][0] == s[0] && s[..2][1] == s[1];
        assert [b[0]] + [] == [b[0]];
      }
      DecodeAppend(ReverseBlocks(s[2..], 2), s[..2]);
      assert b == [b[0]] + b[1..];
      ReverseAppend([b[0]], b[1..]);
      assert Reverse([b[0]]) == [b[0]];
    }
  }

  lemma PairSpells(hi: nat, lo: nat)
    requires hi < 16 && lo < 16
    ensures Spells([Digit(hi), Digit(lo)], [16 * hi + lo])
  {
    var pair := [Digit(hi), Digit(lo)];
    DigitValueOfDigit(hi);
    DigitValueOfDigit(lo);
    assert pair[2..] == "" && HexDecode("") == Some([]);
    assert [16 * hi + lo] + [] == [16 * hi + lo];
  }

  /** The last two digits stand for the lowest byte. */
  lemma LastPair(v: nat, n: nat)
    requires n > 0
    ensures FixedHex(v, 2 * n) == FixedHex(v / 256, 2 * n - 2) + [Digit(v / 16 % 16), Digit(v % 16)]
    ensures 16 * (v / 16 % 16) + v % 16 == v % 256
  {
    var high := FixedHex(v / 256, 2 * n - 2);
    assert v / 16 / 16 == v / 256;
    assert FixedHex(v / 16, 2 * n - 1) == high + [Digit(v / 16 % 16)];
    Group2(high, [Digit(v / 16 % 16)], [Digit(v % 16)]);
  }

  /** Fixed-width digits, pairs reversed, stand for the little-endian bytes. */
  lemma {:induction false} FixedHexSpells(v: nat, n: nat)
    ensures Spells(ReverseBlocks(FixedHex(v, 2 * n), 2), LE(v, n))
  {
    if n > 0 {
      FixedHexSpells(v / 256, n - 1);
      var high := FixedHex(v / 256, 2 * n - 2);
      var pair := [Digit(v / 16 % 16), Digit(v % 16)];
      LastPair(v, n);
      WholeCount(high, n - 1, 2);
      OneBlock(pair, 2);
      ReverseBlocksAppend(high, pair, 2);
      PairSpells(v / 16 % 16, v % 16);
      SpellsAppend(pair, [v % 256], ReverseBlocks(high, 2), LE(v / 256, n - 1));
    }
  }

  /** Each 4-byte word of the text with its four bytes in opposite order. */
  function SwapInWords(s: string): string {
    if |s| < 8 then "" else ReverseBlocks(s[..8], 2) + SwapInWords(s[8..])
  }

  lemma {:induction false} WholeByLength(s: string, t: string, k: nat)
    requires k > 0 && Whole(s, k) && |s| == |t|
    ensures Whole(t, k)
  {
    if |s| > 0 {
      WholeByLength(s[k..], t[k..], k);
    }
  }

  lemma {:induction false} WordsArePairs(s: string)
    requires Whole(s, 8)
    ensures Whole(s, 2)
  {
    if |s| > 0 {
      WordsArePairs(s[8..]);
      WholePairs(s[..8]);
      ReverseBlocksAppend(s[..8], s[8..], 2);
      assert s == s[..8] + s[8..];
    }
  }

  lemma WordsThenPairs(w: string, t: string)
    requires |w| == 8 && Whole(t, 8)
    ensures ReverseBlocks(ReverseBlocks(w + t, 8), 2) == ReverseBlocks(w, 2) + ReverseBlocks(ReverseBlocks(t, 8), 2)
  {
    OneBlock(w, 8);
    ReverseBlocksAppend(w, t, 8);
    ReverseBlocksWhole(t, 8);
    WordsArePairs(ReverseBlocks(t, 8));
    WholePairs(w);
    ReverseBlocksAppend(ReverseBlocks(t, 8), w, 2);
  }

  lemma PairsThenWords(w: string, t: string)
    requires |w| == 8 && Whole(t, 8)
    ensures ReverseBlocks(ReverseBlocks(w + t, 2), 8) == ReverseBlocks(w, 2) + ReverseBlocks(ReverseBlocks(t, 2), 8)
  {
    WholePairs(w);
    WordsArePairs(t);
    ReverseBlocksAppend(w, t, 2);
    ReverseBlocksLength(w, 2);
    ReverseBlocksLength(t, 2);
    OneBlock(ReverseBlocks(w, 2), 8);
    WholeByLength(t, ReverseBlocks(t, 2), 8);
    ReverseBlocksAppend(ReverseBlocks(t, 2), ReverseBlocks(w, 2), 8);
  }

  lemma {:induction false} WholeWordsSwap(s: string)
    requires Whole(s, 8)
    ensures ReverseBlocks(ReverseBlocks(s, 8), 2) == SwapInWords(s)
    ensures ReverseBlocks(ReverseBlocks(s, 2), 8) == SwapInWords(s)
  {
    if |s| > 0 {
      WholeWordsSwap(s[8..]);
      WordsThenPairs(s[..8], s[8..]);
      PairsThenWords(s[..8], s[8..]);
      assert s == s[..8] + s[8..];
    }
  }

  /** On whole words the two reversals commute, and together they only swap bytes inside words. */
  lemma ReversalsCommute(s: string)
    requires |s| % 8 == 0
    ensures ReverseBlocks(ReverseBlocks(s, 8), 2) == SwapInWords(s)
    ensures ReverseBlocks(ReverseBlocks(s, 2), 8) == SwapInWords(s)
  {
    WholeWords(s);
    WholeWordsSwap(s);
  }
}
