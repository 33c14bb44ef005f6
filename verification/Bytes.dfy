/** Byte strings, fixed-width little-endian numbers, and hexadecimal text. */
module Bytes {
  import opened Outcomes

  type byte = b: int | 0 <= b < 256
  type Bytes = seq<byte>

  /** A 32-byte digest. */
  type Hash = h: Bytes | |h| == 32 witness seq(32, _ => 0)

  /** Go's `uint` and `uint64` on the platforms the pool runs on. */
  type uint64 = n: nat | n < 0x1_0000_0000_0000_0000

  // ---- Order -------------------------------------------------------------

  function Reverse<T>(s: seq<T>): (r: seq<T>)
    ensures |r| == |s|
  {
    if s == [] then [] else Reverse(s[1..]) + [s[0]]
  }

  lemma {:induction false} ReverseIndex<T>(s: seq<T>, i: nat)
    requires i < |s|
    ensures Reverse(s)[|s| - 1 - i] == s[i]
  {
    if i > 0 {
      ReverseIndex(s[1..], i - 1);
    }
  }

  lemma {:induction false} ReverseAppend<T>(s: seq<T>, t: seq<T>)
    ensures Reverse(s + t) == Reverse(t) + Reverse(s)
  {
    if s == [] {
      assert s + t == t;
      assert Reverse(t) + [] == Reverse(t);
    } else {
      ReverseAppend(s[1..], t);
      assert (s + t)[1..] == s[1..] + t;
      Group2(Reverse(t), Reverse(s[1..]), [s[0]]);
    }
  }

  lemma {:induction false} ReverseTwice<T>(s: seq<T>)
    ensures Reverse(Reverse(s)) == s
  {
    if s != [] {
      ReverseAppend(Reverse(s[1..]), [s[0]]);
      ReverseTwice(s[1..]);
      assert [s[0]][1..] == [] && Reverse([s[0]]) == [] + [s[0]];
    }
  }

  // ---- Regrouping, so that a reader meets one part at a time ----------------------

  lemma Group2<T>(a: seq<T>, b: seq<T>, r: seq<T>)
    ensures a + b + r == a + (b + r)
  {
  }

  lemma Group3<T>(a: seq<T>, b: seq<T>, c: seq<T>, r: seq<T>)
    ensures a + b + c + r == a + (b + (c + r))
  {
    Group2(a + b, c, r);
    Group2(a, b, c + r);
  }

  lemma Group4<T>(a: seq<T>, b: seq<T>, c: seq<T>, d: seq<T>, r: seq<T>)
    ensures a + b + c + d + r == a + (b + (c + (d + r)))
  {
    Group2(a + b + c, d, r);
    Group3(a, b, c, d + r);
  }

  lemma Group5<T>(a: seq<T>, b: seq<T>, c: seq<T>, d: seq<T>, e: seq<T>, r: seq<T>)
    ensures a + b + c + d + e + r == a + (b + (c + (d + (e + r))))
  {
    Group2(a + b + c + d, e, r);
    Group4(a, b, c, d, e + r);
  }

  lemma Group6<T>(a: seq<T>, b: seq<T>, c: seq<T>, d: seq<T>, e: seq<T>, f: seq<T>, r: seq<T>)
    ensures a + b + c + d + e + f + r == a + (b + (c + (d + (e + (f + r)))))
  {
    Group2(a + b + c + d + e, f, r);
    Group5(a, b, c, d, e, f + r);
  }

  lemma Group8<T>(a: seq<T>, b: seq<T>, c: seq<T>, d: seq<T>, e: seq<T>, f: seq<T>, g: seq<T>, h: seq<T>, r: seq<T>)
    ensures a + b + c + d + e + f + g + h + r == a + (b + (c + (d + (e + (f + (g + (h + r)))))))
  {
    Group3(a + b + c + d + e + f, g, h, r);
    Group6(a, b, c, d, e, f, g + (h + r));
  }

  // ---- Little-endian numbers ----------------------------------------------

  function Pow256(n: nat): (p: nat)
    ensures p >= 1
  {
    if n == 0 then 1 else 256 * Pow256(n - 1)
  }

  /** The low `n` bytes of `v`, least significant first; higher bytes are cut off. */
  function LE(v: nat, n: nat): (b: Bytes)
    ensures |b| == n
  {
    if n == 0 then [] else [v % 256] + LE(v / 256, n - 1)
  }

  function FromLE(b: Bytes): nat {
    if b == [] then 0 else b[0] + 256 * FromLE(b[1..])
  }

  lemma {:induction false} FromLEBound(b: Bytes)
    ensures FromLE(b) < Pow256(|b|)
  {
    if b != [] {
      FromLEBound(b[1..]);
    }
  }

  /** A number that fits is recovered from its little-endian bytes. */
  lemma {:induction false} FromLEOfLE(v: nat, n: nat)
    requires v < Pow256(n)
    ensures FromLE(LE(v, n)) == v
  {
    if n > 0 {
      FromLEOfLE(v / 256, n - 1);
      assert LE(v, n)[1..] == LE(v / 256, n - 1);
    }
  }

  /** Every byte string is the little-endian form of the number it spells. */
  lemma {:induction false} LEOfFromLE(b: Bytes)
    ensures LE(FromLE(b), |b|) == b
  {
    if b != [] {
      LEOfFromLE(b[1..]);
      assert FromLE(b) / 256 == FromLE(b[1..]);
    }
  }

  lemma MultipleBounds(d: nat, k: int)
    ensures k >= 1 ==> d * k >= d
    ensures k <= -1 ==> d * k + d <= 0
  {
  }

  /** The quotient and remainder of a division are unique. */
  lemma DivModUnique(d: nat, q: int, r: nat)
    requires r < d
    ensures (d * q + r) / d == q && (d * q + r) % d == r
  {
    var x := d * q + r;
    var k := x / d - q;
    assert d * (x / d) + x % d == x;
    assert d * k == d * (x / d) - d * q;
    MultipleBounds(d, k);
  }

  /** Bytes that do not fit are cut off: the low `n` bytes stand for `v` modulo 256^n. */
  lemma {:induction false} LETruncates(v: nat, n: nat)
    ensures FromLE(LE(v, n)) == v % Pow256(n)
  {
    if n > 0 {
      LETruncates(v / 256, n - 1);
      assert LE(v, n)[1..] == LE(v / 256, n - 1);
      DivModSplit(v, Pow256(n - 1));
    }
  }

  lemma DivModSplit(v: nat, p: nat)
    requires p > 0
    ensures v % (256 * p) == v % 256 + 256 * (v / 256 % p)
  {
    var w := v / 256;
    var q, m := w / p, w % p;
    assert w == p * q + m;
    assert v == 256 * w + v % 256;
    assert 256 * w == 256 * (p * q) + 256 * m;
    assert 256 * (p * q) == (256 * p) * q;
    DivModUnique(256 * p, q, 256 * m + v % 256);
  }

  lemma Pow256Values()
    ensures Pow256(1) == 0x100
    ensures Pow256(2) == 0x1_0000
    ensures Pow256(4) == 0x1_0000_0000
    ensures Pow256(8) == 0x1_0000_0000_0000_0000
  {
    assert Pow256(4) == 256 * 256 * Pow256(2);
    assert Pow256(6) == 256 * 256 * Pow256(4);
    assert Pow256(8) == 256 * 256 * Pow256(6);
  }

  // ---- Hexadecimal text ------------------------------------------------------

  function Digit(n: nat): (c: char)
    requires n < 16
    ensures LowerDigit(c)
  {
    if n < 10 then ('0' as int + n) as char else ('a' as int + (n - 10)) as char
  }

  predicate LowerDigit(c: char) {
    '0' <= c <= '9' || 'a' <= c <= 'f'
  }

  /** The value of a hexadecimal digit of either case. */
  function DigitValue(c: char): (v: Option<nat>)
    ensures v.Some? ==> v.value < 16
    ensures LowerDigit(c) ==> v.Some? && Digit(v.value) == c
  {
    if '0' <= c <= '9' then Some(c as int - '0' as int)
    else if 'a' <= c <= 'f' then Some(c as int - 'a' as int + 10)
    else if 'A' <= c <= 'F' then Some(c as int - 'A' as int + 10)
    else None
  }

  lemma DigitValueOfDigit(n: nat)
    requires n < 16
    ensures DigitValue(Digit(n)) == Some(n)
  {
  }

  /** `hex.EncodeToString`: two lower-case digits a byte. */
  function HexEncode(b: Bytes): (s: string)
    ensures |s| == 2 * |b|
  {
    if b == [] then "" else [Digit(b[0] / 16), Digit(b[0] % 16)] + HexEncode(b[1..])
  }

  /** `hex.DecodeString`: fails on an odd length or a character that is no digit. */
  function HexDecode(s: string): (b: Option<Bytes>)
    ensures b.Some? ==> |s| == 2 * |b.value|
  {
    if |s| == 0 then Some([])
    else if |s| == 1 then None
    else
      var hi :- DigitValue(s[0]);
      var lo :- DigitValue(s[1]);
      var rest :- HexDecode(s[2..]);
      Some([16 * hi + lo] + rest)
  }

  lemma {:induction false} DecodeEncode(b: Bytes)
    ensures HexDecode(HexEncode(b)) == Some(b)
  {
    if b != [] {
      DecodeEncode(b[1..]);
      DigitValueOfDigit(b[0] / 16);
      DigitValueOfDigit(b[0] % 16);
      assert HexEncode(b)[2..] == HexEncode(b[1..]);
      assert [b[0]] + b[1..] == b;
    }
  }

  /** Decoding a concatenation whose first part decodes. */
  lemma {:induction false} DecodeAppend(s: string, t: string)
    requires HexDecode(s).Some?
    ensures HexDecode(t).Some? ==> HexDecode(s + t) == Some(HexDecode(s).value + HexDecode(t).value)
    ensures HexDecode(t).None? ==> HexDecode(s + t).None?
  {
    if |s| == 0 {
      assert s + t == t;
      assert forall u: Bytes :: [] + u == u;
    } else {
      DecodeAppend(s[2..], t);
      assert (s + t)[2..] == s[2..] + t;
      if HexDecode(t).Some? {
        var x := 16 * DigitValue(s[0]).value + DigitValue(s[1]).value;
        Group2([x], HexDecode(s[2..]).value, HexDecode(t).value);
      }
    }
  }

  /** The front of a text that decodes, before a rest that decodes, decodes. */
  lemma DecodeFront(s: string, t: string)
    requires HexDecode(s + t).Some? && HexDecode(t).Some?
    ensures HexDecode(s).Some?
  {
    DecodePairs(s, t, |HexDecode(s + t).value| - |HexDecode(t).value|);
  }

  lemma {:induction false} DecodePairs(s: string, t: string, n: nat)
    requires HexDecode(s + t).Some? && |s| == 2 * n
    ensures HexDecode(s).Some?
  {
    if n > 0 {
      assert (s + t)[2..] == s[2..] + t && (s + t)[0] == s[0] && (s + t)[1] == s[1];
      DecodePairs(s[2..], t, n - 1);
    }
  }

  lemma {:induction false} EncodeAppend(a: Bytes, b: Bytes)
    ensures HexEncode(a + b) == HexEncode(a) + HexEncode(b)
  {
    if a == [] {
      assert a + b == b;
    } else {
      EncodeAppend(a[1..], b);
      assert (a + b)[1..] == a[1..] + b;
      Group2([Digit(a[0] / 16), Digit(a[0] % 16)], HexEncode(a[1..]), HexEncode(b));
    }
  }

  /** The text `s` stands for the bytes `b`. */
  ghost predicate Spells(s: string, b: Bytes) {
    HexDecode(s) == Some(b)
  }

  lemma SpellsAppend(s: string, b: Bytes, t: string, c: Bytes)
    requires Spells(s, b) && Spells(t, c)
    ensures Spells(s + t, b + c)
  {
    DecodeAppend(s, t);
  }

  ghost predicate ZeroText(s: string) {
    forall i :: 0 <= i < |s| ==> s[i] == '0'
  }

  lemma {:induction false} SpellsZeros(s: string)
    requires |s| % 2 == 0 && ZeroText(s)
    ensures Spells(s, seq(|s| / 2, _ => 0))
  {
    if |s| > 0 {
      SpellsZeros(s[2..]);
      var rest: Bytes := seq(|s[2..]| / 2, _ => 0);
      assert DigitValue('0') == Some(0);
      assert HexDecode(s) == Some([0] + rest);
      assert [0] + rest == seq(|s| / 2, _ => 0);
    } else {
      assert seq(|s| / 2, _ => 0) == [];
    }
  }

  ghost predicate LowerHex(s: string) {
    forall i :: 0 <= i < |s| ==> LowerDigit(s[i])
  }

  lemma {:induction false} EncodeIsLower(b: Bytes)
    ensures LowerHex(HexEncode(b))
  {
    if b != [] {
      EncodeIsLower(b[1..]);
    }
  }

  lemma EncodeCons(hi: nat, lo: nat, rest: Bytes)
    requires hi < 16 && lo < 16
    ensures HexEncode([16 * hi + lo] + rest) == [Digit(hi), Digit(lo)] + HexEncode(rest)
  {
    var b := [16 * hi + lo] + rest;
    assert b[0] / 16 == hi && b[0] % 16 == lo && b[1..] == rest;
  }

  /** Lower-case text is determined by the bytes it stands for. */
  lemma {:induction false} EncodeDecode(s: string)
    requires LowerHex(s) && HexDecode(s).Some?
    ensures HexEncode(HexDecode(s).value) == s
  {
    if |s| != 0 {
      assert LowerDigit(s[0]) && LowerDigit(s[1]);
      var hi, lo, rest := DigitValue(s[0]).value, DigitValue(s[1]).value, HexDecode(s[2..]).value;
      EncodeDecode(s[2..]);
      EncodeCons(hi, lo, rest);
      assert Digit(hi) == s[0] && Digit(lo) == s[1];
      assert s == [s[0], s[1]] + s[2..];
    }
  }

  /** Lower-case text of even length always decodes. */
  lemma {:induction false} LowerHexDecodes(s: string)
    requires LowerHex(s) && |s| % 2 == 0
    ensures HexDecode(s).Some?
  {
    if |s| != 0 {
      assert LowerDigit(s[0]) && LowerDigit(s[1]);
      LowerHexDecodes(s[2..]);
    }
  }

  // ---- Numbers as hexadecimal text -------------------------------------------

  /** `big.Int.Text(16)` and `%x`: no leading zero, "0" for zero. */
  function HexText(v: nat): (s: string)
    ensures |s| >= 1
  {
    if v < 16 then [Digit(v)] else HexText(v / 16) + [Digit(v % 16)]
  }

  function PadZero(s: string, width: nat): (r: string)
    decreases width - |s|
  {
    if |s| >= width then s else PadZero("0" + s, width)
  }

  /** `%0<width>x`. */
  function FormatHex(v: nat, width: nat): string {
    PadZero(HexText(v), width)
  }

  /** Exactly `width` digits, higher ones cut off. */
  function FixedHex(v: nat, width: nat): (s: string)
    ensures |s| == width
  {
    if width == 0 then "" else FixedHex(v / 16, width - 1) + [Digit(v % 16)]
  }

  function Pow16(n: nat): (p: nat)
    ensures p >= 1
  {
    if n == 0 then 1 else 16 * Pow16(n - 1)
  }

  lemma {:induction false} PadZeroLast(s: string, c: char, width: nat)
    requires width > 0
    ensures PadZero(s + [c], width) == PadZero(s, width - 1) + [c]
    decreases width - |s|
  {
    if |s| + 1 < width {
      PadZeroLast("0" + s, c, width);
      assert "0" + (s + [c]) == ("0" + s) + [c];
    }
  }

  lemma {:induction false} PadZeroOfZero(width: nat)
    requires width > 0
    ensures PadZero("", width) == PadZero("0", width)
  {
    assert "0" + "" == "0";
  }

  /** `%0<width>x` of a number that fits is its fixed-width text. */
  lemma {:induction false} FormatHexFixed(v: nat, width: nat)
    requires v < Pow16(width) && width > 0
    ensures FormatHex(v, width) == FixedHex(v, width)
  {
    var c := Digit(v % 16);
    if v < 16 {
      assert HexText(v) == "" + [c];
      PadZeroLast("", c, width);
      if width > 1 {
        FormatHexFixed(0, width - 1);
        PadZeroOfZero(width - 1);
        assert HexText(0) == "0";
      }
    } else {
      assert Pow16(1) == 16 * Pow16(0) == 16;
      FormatHexFixed(v / 16, width - 1);
      PadZeroLast(HexText(v / 16), c, width);
    }
  }

  /** The number spelt by hexadecimal digits, most significant first. */
  function DigitsToNat(s: string): Option<nat> {
    if s == "" then Some(0)
    else
      var hi :- DigitsToNat(s[..|s| - 1]);
      var lo :- DigitValue(s[|s| - 1]);
      Some(16 * hi + lo)
  }

  lemma {:induction false} TextToNat(v: nat)
    ensures DigitsToNat(HexText(v)) == Some(v)
  {
    DigitValueOfDigit(v % 16);
    var s := HexText(v);
    if v >= 16 {
      TextToNat(v / 16);
      assert s[..|s| - 1] == HexText(v / 16);
    } else {
      assert s[..|s| - 1] == "" && s[|s| - 1] == Digit(v);
      assert DigitsToNat("") == Some(0);
    }
  }
}
