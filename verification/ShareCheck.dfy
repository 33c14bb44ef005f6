/** pool/shares.go: what a submitted share is worth. */
module ShareCheck {
  import opened Outcomes
  import opened Bytes
  import opened Encoding
  import opened Targets
  import opened Generator

  /** The constants of the source, in their order; anything above `Invalid` is accepted. */
  datatype Status = Invalid | Valid | PrimaryCandidate | Aux1Candidate | DualCandidate {
    predicate Primary() { PrimaryCandidate? || DualCandidate? }
    predicate Aux() { Aux1Candidate? || DualCandidate? }
    predicate Accepted() { !Invalid? }
  }

  datatype AuxBlock = AuxBlock(hash: string, target: string)

  datatype Verdict = Verdict(status: Status, difficulty: Difficulty)

  /** Every chain of the pool counts a share 65536 times. */
  const SHARE_MULTIPLIER: real := 65536.0

  predicate HasAux(aux1: Option<AuxBlock>) {
    aux1.Some? && aux1.value.hash != ""
  }

  function AuxTarget(aux1: Option<AuxBlock>): Option<int>
    requires HasAux(aux1)
  {
    ToBig(ReverseBlocks(aux1.value.target, 2))
  }

  lemma LastTwoDigits(s: string)
    requires |s| >= 2 && DigitsToNat(s[..|s| - 2]).Some? && HexDecode(s[|s| - 2..]).Some?
    ensures DigitsToNat(s) == Some(256 * DigitsToNat(s[..|s| - 2]).value + HexDecode(s[|s| - 2..]).value[0])
    ensures |HexDecode(s[|s| - 2..]).value| == 1
  {
    var n, pair := |s|, s[|s| - 2..];
    assert pair[2..] == "" && HexDecode("") == Some([]);
    assert s[..n - 1][..n - 2] == s[..n - 2] && s[..n - 1][n - 2] == pair[0] && s[n - 1] == pair[1];
  }

  /** Hexadecimal text read as a number is its bytes read big-endian. */
  lemma {:induction false} DigitsDecode(s: string, n: nat)
    requires HexDecode(s).Some? && |s| == 2 * n
    ensures DigitsToNat(s) == Some(FromLE(Reverse(HexDecode(s).value)))
  {
    if n > 0 {
      var front, pair := s[..|s| - 2], s[|s| - 2..];
      assert s == front + pair;
      DecodePairs(front, pair, n - 1);
      DecodeAppend(front, pair);
      DigitsDecode(front, n - 1);
      LastTwoDigits(s);
      var bytes, last := HexDecode(front).value, HexDecode(pair).value;
      ReverseAppend(bytes, last);
      assert last[1..] == [] && Reverse(last) == [] + [last[0]];
      assert (Reverse(last) + Reverse(bytes))[1..] == Reverse(bytes);
    }
  }

  /** The aux target is hexadecimal text of its bytes, lowest first. */
  lemma AuxTargetIsLittleEndian(aux1: Option<AuxBlock>)
    requires HasAux(aux1) && aux1.value.target != "" && HexDecode(aux1.value.target).Some?
    ensures AuxTarget(aux1) == Some(FromLE(HexDecode(aux1.value.target).value))
  {
    var s := aux1.value.target;
    var turned := ReverseBlocks(s, 2);
    WholePairs(s);
    ReverseBlocksLength(s, 2);
    ReversePairsDecodes(s);
    ReverseTwice(HexDecode(s).value);
    DigitsDecode(turned, |s| / 2);
    assert DigitValue(turned[0]).Some?;
  }

  function Hit(sum: nat, target: Option<int>): bool {
    target.Some? && sum <= target.value
  }

  /** The verdict on a hash, given the three targets; `None` for an aux target that is no number. */
  function StatusOf(sum: nat, primaryTarget: int, hasAux: bool, auxTarget: Option<int>, poolTarget: nat): Status {
    var primary := sum <= primaryTarget;
    if hasAux && auxTarget.None? then (if primary then PrimaryCandidate else Invalid)
    else
      var aux := hasAux && Hit(sum, auxTarget);
      if primary && aux then DualCandidate
      else if primary then PrimaryCandidate
      else if aux then Aux1Candidate
      else if sum <= poolTarget then Valid
      else Invalid
  }

  /** There is a header to hash and a primary target to compare with. */
  predicate Weighable(primary: BitcoinBlock?)
    requires primary != null && primary.header != "" ==> primary.template.Some?
    reads primary
  {
    && primary != null && primary.header != "" && HexDecode(primary.header).Some?
    && ToBig(primary.template.value.target).Some?
  }

  method ValidateAndWeighShare(primary: BitcoinBlock?, aux1: Option<AuxBlock>, poolDifficulty: real)
    returns (r: Outcome<Verdict>)
    requires primary != null && primary.header != "" ==> primary.template.Some?
    requires poolDifficulty > 0.0
    modifies if primary != null then {primary} else {}
    ensures primary != null ==> unchanged(primary`template) && unchanged(primary`header) && unchanged(primary`coinbase)
    ensures !Weighable(primary) ==> r == Ok(Verdict(Invalid, Finite(0.0)))
    ensures Weighable(primary) ==>
      var sum := FromLE(primary.scrypt(HexDecode(primary.header).value));
      var poolTarget := TargetOf(poolDifficulty / SHARE_MULTIPLIER);
      r == if HasAux(aux1) && |aux1.value.target| % 2 != 0 then Panic
           else Ok(Verdict(StatusOf(sum, ToBig(primary.template.value.target).value, HasAux(aux1),
                                    if HasAux(aux1) then AuxTarget(aux1) else None, poolTarget),
                           DifficultyOf(poolTarget)))
  {
    if primary == null {
      return Ok(Verdict(Invalid, Finite(0.0)));
    }
    var primarySum := primary.Sum();
    if !primarySum.Ok? {
      return Ok(Verdict(Invalid, Finite(0.0)));
    }
    var primaryTarget := ToBig(primary.template.value.target);
    if primaryTarget.None? {
      return Ok(Verdict(Invalid, Finite(0.0)));
    }
    var poolTarget := TargetFromDifficulty(poolDifficulty / SHARE_MULTIPLIER);
    TargetTextRoundTrip(TargetOf(poolDifficulty / SHARE_MULTIPLIER));
    var poolTargetBig := ToBig(poolTarget);
    var shareDifficulty := DifficultyOf(poolTargetBig.value);

    var status := Invalid;
    if primarySum.value <= primaryTarget.value {
      status := PrimaryCandidate;
    }
    if aux1.Some? && aux1.value.hash != "" {
      var reversed := ReverseHexBytes(aux1.value.target);
      if !reversed.Ok? {
        return Panic;
      }
      var auxTarget := ToBig(reversed.value);
      if auxTarget.None? {
        return Ok(Verdict(status, shareDifficulty));
      }
      if primarySum.value <= auxTarget.value {
        if status == PrimaryCandidate {
          status := DualCandidate;
        } else {
          status := Aux1Candidate;
        }
      }
    }
    if status != Invalid {
      return Ok(Verdict(status, shareDifficulty));
    }
    if primarySum.value <= poolTargetBig.value {
      return Ok(Verdict(Valid, shareDifficulty));
    }
    return Ok(Verdict(Invalid, shareDifficulty));
  }

  /** What each verdict means. With a readable aux target a share is accepted exactly when it
      meets one of the three targets. */
  lemma StatusMeaning(sum: nat, primaryTarget: int, hasAux: bool, auxTarget: Option<int>, poolTarget: nat)
    ensures var s := StatusOf(sum, primaryTarget, hasAux, auxTarget, poolTarget);
      && (s.Primary() <==> sum <= primaryTarget)
      && (s.Aux() <==> hasAux && Hit(sum, auxTarget))
      && (!(hasAux && auxTarget.None?) ==>
            (s.Accepted() <==> sum <= primaryTarget || (hasAux && Hit(sum, auxTarget)) || sum <= poolTarget))
  {
  }

  /** A share is a candidate for the aux chain exactly when its hash is not above the number whose
      bytes, lowest first, the aux target spells. */
  lemma AuxCandidateMeaning(sum: nat, primaryTarget: int, aux1: Option<AuxBlock>, poolTarget: nat)
    requires HasAux(aux1) && aux1.value.target != "" && HexDecode(aux1.value.target).Some?
    ensures StatusOf(sum, primaryTarget, true, AuxTarget(aux1), poolTarget).Aux() <==> sum <= FromLE(HexDecode(aux1.value.target).value)
  {
    AuxTargetIsLittleEndian(aux1);
  }

  /** A share that meets the pool target is still refused exactly when there is an aux block
      whose target is no number and the share misses the primary target. */
  lemma RefusedThoughGood(sum: nat, primaryTarget: int, hasAux: bool, auxTarget: Option<int>, poolTarget: nat)
    requires sum <= poolTarget
    ensures StatusOf(sum, primaryTarget, hasAux, auxTarget, poolTarget).Invalid?
            <==> hasAux && auxTarget.None? && sum > primaryTarget
  {
  }

  /** For fixed targets a smaller hash never loses a candidacy or its acceptance. */
  lemma SmallerIsNoWorse(sum: nat, smaller: nat, primaryTarget: int, hasAux: bool, auxTarget: Option<int>, poolTarget: nat)
    requires smaller <= sum
    ensures var s, b := StatusOf(sum, primaryTarget, hasAux, auxTarget, poolTarget),
                        StatusOf(smaller, primaryTarget, hasAux, auxTarget, poolTarget);
      (s.Primary() ==> b.Primary()) && (s.Aux() ==> b.Aux()) && (s.Accepted() ==> b.Accepted())
  {
  }

  /** Acceptance in terms of difficulty: without an aux block, and with a primary target no
      easier than the pool's, a share counts exactly when its own difficulty times 65536
      reaches the pool difficulty. */
  lemma AcceptedByDifficulty(sum: nat, primaryTarget: int, poolDifficulty: real)
    requires sum > 0 && poolDifficulty > 0.0 && primaryTarget <= TargetOf(poolDifficulty / SHARE_MULTIPLIER)
    ensures StatusOf(sum, primaryTarget, false, None, TargetOf(poolDifficulty / SHARE_MULTIPLIER)).Accepted()
            <==> (HighestTarget() as real / sum as real) * 65536.0 >= poolDifficulty
  {
    MeetsTarget(sum, poolDifficulty / SHARE_MULTIPLIER);
    QuotientBound(poolDifficulty, HighestTarget() as real / sum as real, SHARE_MULTIPLIER);
  }
}
