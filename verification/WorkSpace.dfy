/** Different shares give different headers, unless a collision of double SHA-256 can be shown. */
module WorkSpace {
  import opened Outcomes
  import opened Bytes
  import opened Templates
  import opened Merkle
  import opened Coinbase
  import opened Headers
  import opened Generator
  import opened Submission

  ghost predicate Collision(H: Bytes -> Hash, x: Bytes, y: Bytes) {
    x != y && H(x) == H(y)
  }

  /** Walks two leaves up the same branch to the first join where they meet. */
  function MeetingPoint(H: Bytes -> Hash, a: Bytes, b: Bytes, steps: seq<Bytes>): (Bytes, Bytes)
    decreases |steps|
  {
    if steps == [] then (a, b)
    else if H(a + steps[0]) == H(b + steps[0]) then (a + steps[0], b + steps[0])
    else MeetingPoint(H, H(a + steps[0]), H(b + steps[0]), steps[1..])
  }

  /** Two inputs of the digest found from two coinbases. */
  function Suspects(H: Bytes -> Hash, coinbase1: Bytes, coinbase2: Bytes, steps: seq<Bytes>): (Bytes, Bytes) {
    if H(coinbase1) == H(coinbase2) then (coinbase1, coinbase2)
    else MeetingPoint(H, H(coinbase1), H(coinbase2), steps)
  }

  lemma {:induction false} MeetingIsCollision(H: Bytes -> Hash, a: Bytes, b: Bytes, steps: seq<Bytes>)
    requires |a| == |b| && a != b && Fold(H, a, steps) == Fold(H, b, steps)
    ensures var (x, y) := MeetingPoint(H, a, b, steps); Collision(H, x, y)
    decreases |steps|
  {
    if steps != [] {
      var x, y := a + steps[0], b + steps[0];
      assert x[..|a|] == a && y[..|b|] == b;
      if H(x) != H(y) {
        MeetingIsCollision(H, H(x), H(y), steps[1..]);
      }
    }
  }

  /** Different coinbases with the same Merkle root give a collision. */
  lemma SuspectsCollide(H: Bytes -> Hash, coinbase1: Bytes, coinbase2: Bytes, steps: seq<Bytes>)
    requires coinbase1 != coinbase2 && Fold(H, H(coinbase1), steps) == Fold(H, H(coinbase2), steps)
    ensures var (x, y) := Suspects(H, coinbase1, coinbase2, steps); Collision(H, x, y)
  {
    if H(coinbase1) != H(coinbase2) {
      MeetingIsCollision(H, H(coinbase1), H(coinbase2), steps);
    }
  }

  lemma {:induction false} FoldSize(H: Bytes -> Hash, leaf: Bytes, steps: seq<Bytes>)
    requires |leaf| == 32
    ensures |Fold(H, leaf, steps)| == 32
    decreases |steps|
  {
    if steps != [] {
      FoldSize(H, H(leaf + steps[0]), steps[1..]);
    }
  }

  /** The triple a miner varies, as lower-case text of fixed widths. */
  datatype Share = Share(extranonce: string, nonce: string, nonceTime: string)

  ghost predicate FixedWidth(s: Share, reserved: nat) {
    && |s.extranonce| == 2 * reserved && |s.nonce| == 8 && |s.nonceTime| == 8
    && LowerHex(s.extranonce) && LowerHex(s.nonce) && LowerHex(s.nonceTime)
  }

  ghost predicate JobDecodes(job: Job) {
    HexDecode(job.coinbaseInitial).Some? && HexDecode(job.coinbaseFinal).Some? && AllDecode(job.merkleSteps)
  }

  ghost function CoinbaseOf(job: Job, extranonce: Bytes): Bytes
    requires JobDecodes(job)
  {
    HexDecode(job.coinbaseInitial).value + extranonce + HexDecode(job.coinbaseFinal).value
  }

  ghost function RootOf(H: Bytes -> Hash, job: Job, extranonce: Bytes): Bytes
    requires JobDecodes(job)
  {
    Fold(H, H(CoinbaseOf(job, extranonce)), DecodeAll(job.merkleSteps))
  }

  lemma RootTextIsFold(H: Bytes -> Hash, job: Job, text: string, extranonce: Bytes)
    requires JobDecodes(job) && Spells(text, extranonce)
    ensures RootText(H, job, CoinbaseText(job, text)) == Ok(HexEncode(RootOf(H, job, extranonce)))
  {
    SpellsAppend(job.coinbaseInitial, HexDecode(job.coinbaseInitial).value, text, extranonce);
    SpellsAppend(job.coinbaseInitial + text, HexDecode(job.coinbaseInitial).value + extranonce,
                 job.coinbaseFinal, HexDecode(job.coinbaseFinal).value);
    var hashed := H(CoinbaseOf(job, extranonce));
    DecodeEncode(hashed);
    FoldHexIsFold(H, hashed, job.merkleSteps);
  }

  ghost predicate TemplateSizes(t: Template) {
    SpellsSize(t.prevBlockHash, 32) && SpellsSize(t.bits, 4)
  }

  /** The bytes under a header's text. */
  lemma HeaderTextDecodes(H: Bytes -> Hash, t: Template, job: Job, text: string, extranonce: Bytes,
                          nonceText: string, nonce: Bytes, timeText: string, time: Bytes)
    requires JobDecodes(job) && TemplateSizes(t)
    requires Spells(text, extranonce) && Spells(nonceText, nonce) && Spells(timeText, time) && |nonce| == 4 && |time| == 4
    ensures HeaderText(H, t, job, text, nonceText, timeText).Ok?
    ensures Spells(HeaderText(H, t, job, text, nonceText, timeText).value,
                   RawHeader(t.version, HexDecode(t.prevBlockHash).value, RootOf(H, job, extranonce), time, HexDecode(t.bits).value, nonce))
    ensures |RootOf(H, job, extranonce)| == 32
  {
    RootTextIsFold(H, job, text, extranonce);
    var root := RootOf(H, job, extranonce);
    DecodeEncode(root);
    HeaderHexSpells(t.version, t.prevBlockHash, HexEncode(root), timeText, t.bits, nonceText);
    FoldSize(H, H(CoinbaseOf(job, extranonce)), DecodeAll(job.merkleSteps));
  }

  lemma HeaderOfShare(H: Bytes -> Hash, t: Template, job: Job, s: Share, reserved: nat)
    returns (extranonce: Bytes, nonce: Bytes, time: Bytes)
    requires JobDecodes(job) && TemplateSizes(t) && FixedWidth(s, reserved)
    ensures Spells(s.extranonce, extranonce) && Spells(s.nonce, nonce) && Spells(s.nonceTime, time)
    ensures |extranonce| == reserved && |nonce| == 4 && |time| == 4 && |RootOf(H, job, extranonce)| == 32
    ensures HeaderText(H, t, job, s.extranonce, s.nonce, s.nonceTime).Ok?
    ensures Spells(HeaderText(H, t, job, s.extranonce, s.nonce, s.nonceTime).value,
                   RawHeader(t.version, HexDecode(t.prevBlockHash).value, RootOf(H, job, extranonce), time, HexDecode(t.bits).value, nonce))
  {
    LowerHexDecodes(s.extranonce);
    LowerHexDecodes(s.nonce);
    LowerHexDecodes(s.nonceTime);
    extranonce, nonce, time := HexDecode(s.extranonce).value, HexDecode(s.nonce).value, HexDecode(s.nonceTime).value;
    HeaderTextDecodes(H, t, job, s.extranonce, extranonce, s.nonce, nonce, s.nonceTime, time);
  }

  lemma SameBytesSameText(s: string, t: string, b: Bytes)
    requires LowerHex(s) && LowerHex(t) && Spells(s, b) && Spells(t, b)
    ensures s == t
  {
    EncodeDecode(s);
    EncodeDecode(t);
  }

  /** Work is disjoint: for one job, shares with the same header are the same share, or walking
      the Merkle fold from their coinbases shows two inputs with equal digest. */
  lemma WorkIsDisjoint(H: Bytes -> Hash, t: Template, job: Job, s1: Share, s2: Share, reserved: nat)
    requires JobDecodes(job) && TemplateSizes(t) && FixedWidth(s1, reserved) && FixedWidth(s2, reserved)
    requires HeaderText(H, t, job, s1.extranonce, s1.nonce, s1.nonceTime) == HeaderText(H, t, job, s2.extranonce, s2.nonce, s2.nonceTime)
    ensures HexDecode(s1.extranonce).Some? && HexDecode(s2.extranonce).Some?
    ensures s1 == s2 ||
      var (x, y) := Suspects(H, CoinbaseOf(job, HexDecode(s1.extranonce).value), CoinbaseOf(job, HexDecode(s2.extranonce).value),
                             DecodeAll(job.merkleSteps));
      Collision(H, x, y)
  {
    var e1, n1, t1 := HeaderOfShare(H, t, job, s1, reserved);
    var e2, n2, t2 := HeaderOfShare(H, t, job, s2, reserved);
    RawHeadersAgree(H, t, job, HeaderText(H, t, job, s1.extranonce, s1.nonce, s1.nonceTime).value, e1, n1, t1, e2, n2, t2);
    if e1 == e2 {
      SameBytesSameText(s1.extranonce, s2.extranonce, e1);
      SameBytesSameText(s1.nonce, s2.nonce, n1);
      SameBytesSameText(s1.nonceTime, s2.nonceTime, t1);
    } else {
      CoinbasesDiffer(job, e1, e2);
      SuspectsCollide(H, CoinbaseOf(job, e1), CoinbaseOf(job, e2), DecodeAll(job.merkleSteps));
    }
  }

  lemma RawHeadersAgree(H: Bytes -> Hash, t: Template, job: Job, text: string, e1: Bytes, n1: Bytes, t1: Bytes,
                        e2: Bytes, n2: Bytes, t2: Bytes)
    requires JobDecodes(job) && TemplateSizes(t)
    requires |n1| == 4 && |t1| == 4 && |n2| == 4 && |t2| == 4
    requires |RootOf(H, job, e1)| == 32 && |RootOf(H, job, e2)| == 32
    requires Spells(text, RawHeader(t.version, HexDecode(t.prevBlockHash).value, RootOf(H, job, e1), t1, HexDecode(t.bits).value, n1))
    requires Spells(text, RawHeader(t.version, HexDecode(t.prevBlockHash).value, RootOf(H, job, e2), t2, HexDecode(t.bits).value, n2))
    ensures RootOf(H, job, e1) == RootOf(H, job, e2) && n1 == n2 && t1 == t2
  {
    RawHeaderDetermines(t.version, HexDecode(t.prevBlockHash).value, HexDecode(t.bits).value,
                        RootOf(H, job, e1), t1, n1, RootOf(H, job, e2), t2, n2);
  }

  lemma CoinbasesDiffer(job: Job, e1: Bytes, e2: Bytes)
    requires JobDecodes(job) && |e1| == |e2| && e1 != e2
    ensures CoinbaseOf(job, e1) != CoinbaseOf(job, e2)
  {
    var n := |HexDecode(job.coinbaseInitial).value|;
    assert CoinbaseOf(job, e1)[n..n + |e1|] == e1;
    assert CoinbaseOf(job, e2)[n..n + |e2|] == e2;
  }

  lemma SharesDiffer(prefix1: string, prefix2: string, s1: Share, s2: Share)
    requires prefix1 != prefix2 && |prefix1| == |prefix2|
    requires prefix1 <= s1.extranonce && prefix2 <= s2.extranonce
    ensures s1 != s2
  {
    assert s1.extranonce[..|prefix1|] == prefix1 && s2.extranonce[..|prefix2|] == prefix2;
  }

  /** Two clients hold different extranonce prefixes of one length, so whatever they append,
      their headers differ or the walk from their coinbases shows a collision. */
  lemma ClientsAreDisjoint(H: Bytes -> Hash, t: Template, job: Job, prefix1: string, prefix2: string, s1: Share, s2: Share, reserved: nat)
    requires prefix1 != prefix2 && |prefix1| == |prefix2|
    requires prefix1 <= s1.extranonce && prefix2 <= s2.extranonce
    requires JobDecodes(job) && TemplateSizes(t) && FixedWidth(s1, reserved) && FixedWidth(s2, reserved)
    ensures HexDecode(s1.extranonce).Some? && HexDecode(s2.extranonce).Some?
    ensures HeaderText(H, t, job, s1.extranonce, s1.nonce, s1.nonceTime) != HeaderText(H, t, job, s2.extranonce, s2.nonce, s2.nonceTime)
      || var (x, y) := Suspects(H, CoinbaseOf(job, HexDecode(s1.extranonce).value), CoinbaseOf(job, HexDecode(s2.extranonce).value),
                                DecodeAll(job.merkleSteps));
         Collision(H, x, y)
  {
    LowerHexDecodes(s1.extranonce);
    LowerHexDecodes(s2.extranonce);
    SharesDiffer(prefix1, prefix2, s1, s2);
    if HeaderText(H, t, job, s1.extranonce, s1.nonce, s1.nonceTime) == HeaderText(H, t, job, s2.extranonce, s2.nonce, s2.nonceTime) {
      WorkIsDisjoint(H, t, job, s1, s2, reserved);
    }
  }

  /** The job generated from a template the node's sizes are right in decodes. */
  lemma GeneratedJobDecodes(H: Bytes -> Hash, t: Template, arbitrary: Bytes, pubScriptKey: string, reserved: nat, job: Job)
    requires MakeJob(H, t, arbitrary, pubScriptKey, reserved) == Ok(job)
    requires ScriptsDecode(t, pubScriptKey) && IdsDecode(t, 0)
    ensures JobDecodes(job)
  {
    MakeJobSucceeds(H, t, arbitrary, pubScriptKey, reserved);
    InitialSpells(t, |BytesWithLengthHeader(arbitrary)| + reserved);
    FinalSpells(t, pubScriptKey);
    var arb, final := BytesWithLengthHeader(arbitrary), MakeCoinbaseFinal(t, pubScriptKey).value.Serialize().value;
    DecodeEncode(arb);
    SpellsAppend(HexEncode(arb), arb, final, HexDecode(final).value);
    NodesAreIds(t);
    BranchHexIsBranch(H, NodeTexts(Ids(t)));
  }

  /** For generated work: two shares of one template with the same header are the same share, or
      the walk from their coinbases shows a collision. */
  lemma GeneratedWorkIsDisjoint(H: Bytes -> Hash, t: Template, arbitrary: Bytes, pubScriptKey: string, reserved: nat, job: Job,
                                s1: Share, s2: Share)
    requires MakeJob(H, t, arbitrary, pubScriptKey, reserved) == Ok(job)
    requires TemplateSizes(t) && ScriptsDecode(t, pubScriptKey) && IdsDecode(t, 0)
    requires FixedWidth(s1, reserved) && FixedWidth(s2, reserved)
    requires HeaderText(H, t, job, s1.extranonce, s1.nonce, s1.nonceTime) == HeaderText(H, t, job, s2.extranonce, s2.nonce, s2.nonceTime)
    ensures JobDecodes(job) && HexDecode(s1.extranonce).Some? && HexDecode(s2.extranonce).Some?
    ensures s1 == s2 ||
      var (x, y) := Suspects(H, CoinbaseOf(job, HexDecode(s1.extranonce).value), CoinbaseOf(job, HexDecode(s2.extranonce).value),
                             DecodeAll(job.merkleSteps));
      Collision(H, x, y)
  {
    GeneratedJobDecodes(H, t, arbitrary, pubScriptKey, reserved, job);
    WorkIsDisjoint(H, t, job, s1, s2, reserved);
  }

  // ---- Which headers commit to the coinbase beside them -------------------------------------------

  /** What a new block holds after some calls of `MakeHeader`. */
  function AfterCalls(H: Bytes -> Hash, t: Template, job: Job, calls: seq<Call>): Sealed {
    if calls == [] then Sealed("", "")
    else AfterMakeHeader(H, t, job, AfterCalls(H, t, job, calls[..|calls| - 1]), calls[|calls| - 1])
  }

  /** The header holds the root of the tree over the coinbase beside it and the template's
      transactions. */
  ghost predicate Commits(H: Bytes -> Hash, t: Template, s: Sealed)
    requires IdsDecode(t, 0)
  {
    HexDecode(s.coinbase).Some?
    && exists nonce, time ::
      HeaderHex(t.version, t.prevBlockHash, HexEncode(TreeRoot(H, t, HexDecode(s.coinbase).value)), time, t.bits, nonce) == Ok(s.header)
  }

  lemma CoinbaseDecodes(job: Job, extranonce: string)
    requires JobDecodes(job)
    ensures HexDecode(CoinbaseText(job, extranonce)).Some? <==> HexDecode(extranonce).Some?
  {
    var front := job.coinbaseInitial + extranonce;
    DecodeAppend(job.coinbaseInitial, extranonce);
    if HexDecode(front).Some? {
      DecodeAppend(front, job.coinbaseFinal);
    } else if HexDecode(front + job.coinbaseFinal).Some? {
      DecodeFront(front, job.coinbaseFinal);
    }
  }

  lemma OneCallCommits(H: Bytes -> Hash, t: Template, arbitrary: Bytes, pubScriptKey: string, reserved: nat, job: Job, s: Sealed, c: Call)
    requires MakeJob(H, t, arbitrary, pubScriptKey, reserved) == Ok(job) && JobDecodes(job) && IdsDecode(t, 0)
    requires AfterMakeHeader(H, t, job, s, c).header != ""
    ensures Commits(H, t, AfterMakeHeader(H, t, job, s, c)) <==> HexDecode(c.extranonce).Some?
  {
    CoinbaseDecodes(job, c.extranonce);
    var coinbase := CoinbaseText(job, c.extranonce);
    if HexDecode(coinbase).Some? {
      RootTextIsTreeRoot(H, t, arbitrary, pubScriptKey, reserved, job, coinbase);
      assert HeaderHex(t.version, t.prevBlockHash, HexEncode(TreeRoot(H, t, HexDecode(coinbase).value)), c.nonceTime, t.bits, c.nonce)
             == HeaderText(H, t, job, c.extranonce, c.nonce, c.nonceTime);
    }
  }

  /** After any calls of `MakeHeader` on generated work, the header that `Submit` serialises
      commits to the coinbase it serialises exactly when the extranonce of the last call was
      hexadecimal text. */
  lemma SubmitCommits(H: Bytes -> Hash, t: Template, arbitrary: Bytes, pubScriptKey: string, reserved: nat, job: Job, calls: seq<Call>)
    requires MakeJob(H, t, arbitrary, pubScriptKey, reserved) == Ok(job)
    requires ScriptsDecode(t, pubScriptKey) && IdsDecode(t, 0)
    requires AfterCalls(H, t, job, calls).header != ""
    ensures calls != []
    ensures Commits(H, t, AfterCalls(H, t, job, calls)) <==> HexDecode(calls[|calls| - 1].extranonce).Some?
  {
    hide Commits, AfterMakeHeader, HexDecode, ScriptsDecode, AllDecode;
    GeneratedJobDecodes(H, t, arbitrary, pubScriptKey, reserved, job);
    MakeJobSucceeds(H, t, arbitrary, pubScriptKey, reserved);
    OneCallCommits(H, t, arbitrary, pubScriptKey, reserved, job, AfterCalls(H, t, job, calls[..|calls| - 1]), calls[|calls| - 1]);
  }

  /** Two calls are enough to part them: after a good one, a call whose extranonce is "z" leaves the
      good header beside its own coinbase. */
  lemma ForeignCoinbase(H: Bytes -> Hash, t: Template, arbitrary: Bytes, pubScriptKey: string, reserved: nat, job: Job, good: Call,
                        nonce: string, nonceTime: string)
    requires MakeJob(H, t, arbitrary, pubScriptKey, reserved) == Ok(job)
    requires ScriptsDecode(t, pubScriptKey) && IdsDecode(t, 0)
    requires HeaderText(H, t, job, good.extranonce, good.nonce, good.nonceTime).Ok?
    ensures var s := AfterCalls(H, t, job, [good, Call("z", nonce, nonceTime)]);
      && s == Sealed(CoinbaseText(job, "z"), HeaderText(H, t, job, good.extranonce, good.nonce, good.nonceTime).value)
      && s.header != "" && !Commits(H, t, s)
  {
    var bad := Call("z", nonce, nonceTime);
    var calls := [good, bad];
    assert calls[..1] == [good] && [good][..0] == [];
    GeneratedJobDecodes(H, t, arbitrary, pubScriptKey, reserved, job);
    CoinbaseDecodes(job, "z");
    HeaderHasText(H, t, job, good.extranonce, good.nonce, good.nonceTime);
    SubmitCommits(H, t, arbitrary, pubScriptKey, reserved, job, calls);
  }
}
