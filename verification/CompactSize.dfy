/** CompactSize unsigned integers as the Bitcoin developer reference describes them,
    independent of the pool's own writer. */
module CompactSize {
  import opened Outcomes
  import opened Bytes

  /** The shortest of the four forms. */
  function Write(v: uint64): (b: Bytes)
    ensures |b| >= 1
  {
    if v <= 252 then [v]
    else if v <= 0xffff then [253] + LE(v, 2)
    else if v <= 0xffff_ffff then [254] + LE(v, 4)
    else [255] + LE(v, 8)
  }

  /** The bytes of a number that follow a given first byte. */
  function Width(first: byte): nat {
    if first <= 252 then 0 else if first == 253 then 2 else if first == 254 then 4 else 8
  }

  /** A number and the bytes after it. */
  function Read(b: Bytes): (r: Option<(nat, Bytes)>)
    ensures r.Some? ==> |r.value.1| < |b|
  {
    if b == [] || |b| < 1 + Width(b[0]) then None
    else
      var w := Width(b[0]);
      Some((if w == 0 then b[0] else FromLE(b[1..1 + w]), b[1 + w..]))
  }

  lemma ReadWrite(v: uint64, rest: Bytes)
    ensures Read(Write(v) + rest) == Some((v, rest))
  {
    Pow256Values();
    var b := Write(v) + rest;
    var w := Width(b[0]);
    assert b[1 + w..] == rest;
    if w > 0 {
      FromLEOfLE(v, w);
      assert b[1..1 + w] == LE(v, w);
    }
  }

  /** Any spelling that a reader takes for `v` is at least as long as `Write(v)`, and one of
      the same length is `Write(v)` itself. */
  lemma WriteIsShortest(b: Bytes, v: uint64, rest: Bytes)
    requires Read(b) == Some((v, rest))
    ensures |b| - |rest| >= |Write(v)|
    ensures |b| - |rest| == |Write(v)| ==> b == Write(v) + rest
  {
    Pow256Values();
    var w := Width(b[0]);
    if w == 0 {
      assert b == [v] + rest;
    } else {
      FromLEBound(b[1..1 + w]);
      LEOfFromLE(b[1..1 + w]);
      assert b == [b[0]] + b[1..1 + w] + b[1 + w..];
    }
  }
}
